# CSS Inspector content script — a Dafny model

The CSS Inspector browser extension injects a content script into a page.
When the user moves the mouse over an element, a popup shows the CSS
behind that element. The popup has three tabs:

- **Styles** is meant to show the element's inline style, the stylesheet rules that match it, the `@media` rules whose inner rules match it, and the `:hover` rules whose base selector matches it. As written it throws instead (see Findings).
- **Computed** shows a fixed allow-list of computed properties.
- **Sources** lists the stylesheets.

A click on the popup copies the current tab's text. Space pins or unpins the popup. The Pause button unpins it when it is pinned, and otherwise toggles the pause.

This project models the core of `content.js`:

- **`Authored`** collects the authored rules.
  - It scans every readable sheet and every `@media` rule inside it.
  - It skips sheets that cannot be read and selectors that throw.
  - It sorts the matched rules by the `length` of their selector text, longest first. `length` counts UTF-16 code units, so a character beyond U+FFFF counts twice. The sort is stable, as `Array.prototype.sort` is.
- **`Hover`** collects the hover styles. The base selector is the text before the first `:hover`. A declaration with an empty value is dropped, and `!important` is appended when the priority is set.
- **`Computed`** is the computed-style filter. It keeps every allow-listed property whose value is informative, in list order.
- **`CopyText`**:
  - the element label (lower-case tag, `#id`, then the kept classes joined by ` .`);
  - the Styles copy text, built block by block, with `;\s*` turned into line breaks, then trimmed;
  - the per-tab data that the view and the copy text are made from.
- **`Display`**:
  - the property-line splitter of the renderer;
  - the line lists it is applied to on the Computed and Styles tabs;
  - a fault in the Styles view (see Findings).
- **`Inspector`**:
  - the state the handlers share: pause, pin, current element, active tab, last mouse event seen, popup and overlay visibility, button look, and the `data-raw-css` copy attribute;
  - each handler as a method of the class `Inspector`, proved equal to a transition function;
  - the invariant every handler keeps, proved for every reachable state.

Text helpers live in `Text`. The page is modelled in `Cssom` with the browser abstracted away:

- stylesheets and rules are values;
- `element.matches`, `getComputedStyle(...).getPropertyValue` and `document.elementFromPoint` are functions or parameters supplied by the caller.

Collections and imperative code are modelled as follows:

- Each loop of the source is a `method` with a `while` loop, proved equal to a recursive function.
- The properties are proved about that function.
- `Array.prototype.sort` is library code. It is modelled as a stable insertion sort on sequences.
- The lemmas show that this sort is a permutation, that it orders longest first, and that it keeps the relative order of equal keys.
- It is also the only sequence with all three properties.

Some consequences of the code, stated as the model has them:

- Matched rules are ordered by the length of `selectorText`, longest first and otherwise in discovery order.
- The hover base selector is the text before the first `:hover`.
- A hover declaration with an empty value gives no entry.
- Classes in the label are joined with ` .`.
- In `renderCurrentView`, the Sources branch inside the no-element guard (lines 265-268) can never run, because the guard requires a tab other than Sources. The model has no such branch.

## Model

| member | source | states |
|---|---|---|
| Authored.GetAuthoredRules | css-inspector-extension/content.js:194-209 | The scan returns the inline style (absent when empty), the matched rules sorted by the UTF-16 length of their selector, and the `@media` entries in discovery order. |
| Authored.ScanSheetRules | css-inspector-extension/content.js:201-204 | The loop over one sheet's rules collects exactly the matched-rule and media-rule entries of that rule list, in order. |
| Authored.ScanMediaRule | css-inspector-extension/content.js:203 | The loop over a `@media` rule's inner rules collects exactly the style rules the element matches, tagged with the condition and source. |
| Authored.MatchedInRulesMembers | css-inspector-extension/content.js:202 | An entry is collected from a rule list iff some style rule in it matches the element, with that rule's selector, style text and source. |
| Authored.MatchedInMediaMembers | css-inspector-extension/content.js:203 | An inner entry is collected iff some inner style rule matches, with its selector, text, the media condition and the source. |
| Authored.MediaInRulesMembers | css-inspector-extension/content.js:203 | A media entry is collected from a rule list iff some inner style rule of some `@media` rule in it matches. |
| Authored.MatchedInSheetsMembers | css-inspector-extension/content.js:197-205 | A matched-rule entry is found iff it comes from a matching style rule of a readable sheet, with that sheet's source label. |
| Authored.MediaInSheetsMembers | css-inspector-extension/content.js:197-205 | A media entry is found iff it comes from a matching inner rule of a `@media` rule of a readable sheet. |
| Authored.UnreadableSheetSkipped | css-inspector-extension/content.js:199-205 | A sheet whose rules cannot be read changes nothing in the result, wherever it stands among the sheets. |
| Authored.InsertPermutes | css-inspector-extension/content.js:207 | Inserting one rule into a sorted list adds exactly that rule. |
| Authored.InsertKeepsOrder | css-inspector-extension/content.js:207 | Inserting into a longest-first list keeps it longest-first. |
| Authored.InsertWithLength | css-inspector-extension/content.js:207 | Inserting places the rule before the other rules of the same length, which keep their order. |
| Authored.SortByLengthPermutes | css-inspector-extension/content.js:207 | The sort is a permutation of its input. |
| Authored.SortByLengthLongestFirst | css-inspector-extension/content.js:207 | After the sort, no rule has a longer selector than a rule before it. |
| Authored.SortByLengthStable | css-inspector-extension/content.js:207 | Rules with selectors of the same length keep their discovery order. |
| Authored.LongestFirstStableUnique | css-inspector-extension/content.js:207 | Two longest-first lists that agree on the order within every length are equal. |
| Authored.SortByLengthIsTheStableSort | css-inspector-extension/content.js:207 | Any longest-first list that keeps the order within each length is the sort's output. |
| Authored.AstralSelectorTies | css-inspector-extension/content.js:207 | `.😀` and `.ab` both have length 3, so the sort keeps them in discovery order. |
| Authored.WithLengthMembers | css-inspector-extension/content.js:207 | The rules of a given length are exactly the members with that selector length. |
| Authored.AuthoredMatchedRules | css-inspector-extension/content.js:194-209 | The returned matched rules are a permutation of the discovered ones; they are exactly the entries of matching rules of readable sheets; they are longest-first, and stable. |
| Hover.GetHoverStyles | css-inspector-extension/content.js:210-215 | The scan returns the hover styles, in sheet, rule and declaration order. |
| Hover.HoverInSheetRules | css-inspector-extension/content.js:213 | The loop over one sheet's rules collects the hover entries of exactly the rules whose selector has `:hover` and whose base matches. |
| Hover.HoverDeclarations | css-inspector-extension/content.js:213 | The loop over a hover rule's declarations keeps those with a value, with ` !important` appended when prioritised. |
| Hover.HoverOfDeclarationsMembers | css-inspector-extension/content.js:213 | An entry comes from a rule's declarations iff some declaration has a non-empty value and gives that property and value. |
| Hover.HoverOfDeclarationsInOrder | css-inspector-extension/content.js:213 | There are never more entries than declarations; when every value is non-empty, there is one entry per declaration, in order. |
| Hover.HoverOfDeclarationsSubsequence | css-inspector-extension/content.js:213 | Whatever the values, a rule's entries follow its declaration order, with the valueless declarations left out. |
| Hover.HoverInRulesMembers | css-inspector-extension/content.js:213 | An entry is collected from a rule list iff it comes from a valued declaration of a hover rule whose base selector matches. |
| Hover.HoverStylesMembers | css-inspector-extension/content.js:210-215 | A hover style is returned iff it comes from a valued declaration of an applicable hover rule of a readable sheet. |
| Hover.ButtonHoverExample | css-inspector-extension/content.js:213 | `.btn:hover { color: red; }` yields one entry `color`/`red` exactly when the element matches `.btn`, and none otherwise. |
| Text.BeforeFirst | css-inspector-extension/content.js:213 | The base selector is a prefix; when `:hover` occurs, it is followed by `:hover` and contains none; otherwise it is the whole selector. |
| Text.IndexOf | css-inspector-extension/content.js:213 | Finds the first occurrence of a pattern, or reports that none exists. |
| Text.TrimStart | css-inspector-extension/content.js:247 | Leading white space is dropped, and only white space. |
| Text.TrimEnd | css-inspector-extension/content.js:247 | Trailing white space is dropped, and only white space. |
| Text.Utf16Length | css-inspector-extension/content.js:207 | A string's `length` counts UTF-16 code units; it lies between the number of characters and twice that. |
| Text.Utf16LengthBmp | css-inspector-extension/content.js:207 | Without characters beyond U+FFFF, `length` is the number of characters. |
| Text.ToLower | css-inspector-extension/content.js:222 | Same length; each letter A-Z becomes lower case; every other character is kept. |
| Text.JoinSplit | css-inspector-extension/content.js:247 | Joining the pieces of a split with the same separator gives back the string, so `parts.join(':')` restores a value with colons. |
| Text.SplitJoin | css-inspector-extension/content.js:247 | Splitting a join of separator-free pieces gives back the pieces. |
| Text.SplitFirst | css-inspector-extension/content.js:247 | The first piece of a split is the text before the first separator, and the rest rejoins to the text after it. |
| Text.ReplaceSemicolonsPlain | css-inspector-extension/content.js:235-237 | The `;\s*` rewrite leaves text without a semicolon unchanged. |
| Computed.ComputedCssLines | css-inspector-extension/content.js:227-229 | The loop over the allow-list produces one `prop: value;` line per kept property, in allow-list order. |
| Computed.SnapshotMembers | css-inspector-extension/content.js:229 | A pair is shown iff its property is on the allow-list, its value is the computed one, and that value is not blank, `none`, `auto`, `normal`, `0px` or transparent black. |
| Computed.SnapshotInListOrder | css-inspector-extension/content.js:228-229 | The properties shown are a subsequence of the allow-list. |
| Computed.AllowListNames | css-inspector-extension/content.js:228 | Every allow-listed name is a plain property name: no colon, semicolon or line break, and not padded. |
| CopyText.KeptClassesMembers | css-inspector-extension/content.js:222 | A class is in the label iff it is a piece of the class attribute that is non-empty and does not start with `css-inspector`. |
| CopyText.AllClassesFilteredLeavesDot | css-inspector-extension/content.js:222 | A non-empty class attribute whose classes are all filtered out still leaves a lone `.` in the label. |
| CopyText.DotJoin | css-inspector-extension/content.js:222 | A `.` followed by the classes joined with ` .` is the dotted classes joined with spaces. |
| CopyText.ClassSuffixTokens | css-inspector-extension/content.js:222 | Split at spaces, the class part of the label is exactly the kept classes, each with a leading dot. |
| CopyText.LabelNeverNA | css-inspector-extension/content.js:221-222 | An element with a tag is labelled by its lower-cased tag name, and never `N/A`. |
| CopyText.BuildAuthoredCopyText | css-inspector-extension/content.js:234-239 | The Styles copy text is the trimmed concatenation of the header, the inline block, the rule blocks, the media blocks and the hover section. |
| CopyText.StartAuthoredText | css-inspector-extension/content.js:234-235 | The header, then a `[style]` block exactly when the inline style is present and non-empty. |
| CopyText.AppendRuleBlocks | css-inspector-extension/content.js:236 | The loop appends one block per matched rule, in order. |
| CopyText.AppendMediaBlocks | css-inspector-extension/content.js:237 | The loop appends one `@media` block per media entry, in order. |
| CopyText.AppendHoverSection | css-inspector-extension/content.js:238 | The hover comment and the hover lines are appended exactly when there is a hover entry. |
| CopyText.AppendHoverLines | css-inspector-extension/content.js:238 | The loop appends one `label:hover { prop: value; }` line per hover entry, in order. |
| CopyText.AuthoredCopyTextShape | css-inspector-extension/content.js:234-239 | The copy text starts with the `Authored for` comment, and is the untrimmed text minus trailing white space only. |
| CopyText.MatchedBeforeMedia | css-inspector-extension/content.js:236-237 | Each rule block occurs at its position; consecutive rule blocks follow one another; every rule block ends before any media block starts. |
| CopyText.SemicolonsBreakLines | css-inspector-extension/content.js:235-237 | The `;\s*` rewrite of a serialised style puts each declaration on its own indented line. |
| CopyText.RuleBlockLayout | css-inspector-extension/content.js:236 | A rule block is its selector, ` {`, then one indented line per declaration, then `}`. |
| CopyText.GetInspectedElementData | css-inspector-extension/content.js:219-242 | The per-tab computation equals the reference definition: `N/A` and nothing to copy without an element with a tag, except on Sources; the computed lines; the authored rules and their copy text; the Sources text. |
| CopyText.StylesTabData | css-inspector-extension/content.js:231-233 | For an element with a tag, the Styles tab carries the element's label and its authored rules. |
| CopyText.InspectedDataCopyable | css-inspector-extension/content.js:219-242 | The copy text is never empty, and the label is `N/A` iff there is no element with a tag. |
| Display.StripSemicolon | css-inspector-extension/content.js:247 | Exactly one trailing `;` is removed when present; otherwise the value is unchanged. |
| Display.RenderProperties | css-inspector-extension/content.js:247 | The loop over a block's lines shows, in order, the pairs the line splitter gives. |
| Display.ParsedLineHasColon | css-inspector-extension/content.js:247 | No line without a colon is shown, in either kind of block. |
| Display.ParseAtFirstColon | css-inspector-extension/content.js:247 | The name is the trimmed text before the first colon; the value is the trimmed rest, colons included, less one `;`; a line is shown iff both are non-empty. |
| Display.ParseDeclaration | css-inspector-extension/content.js:247 | A `name: value` line, with an optional `;` and leading blanks in an authored block, is shown as exactly that name and value. |
| Display.ParseComputedLine | css-inspector-extension/content.js:247 | A computed `prop: value;` line is read back as that property and value. |
| Display.RenderedEach | css-inspector-extension/content.js:247 | When every line parses, the block shows exactly the parsed pairs, in order. |
| Display.NonBlankEach | css-inspector-extension/content.js:249 | Filtering out blank pieces keeps every non-blank piece. |
| Display.ComputedLinesRoundTrip | css-inspector-extension/content.js:229 | The lines built from a snapshot are read back as that snapshot. |
| Display.ComputedViewRoundTrip | css-inspector-extension/content.js:248 | Joined with line breaks and split again by the renderer, the computed lines show exactly the snapshot. |
| Display.SnapshotNames | css-inspector-extension/content.js:229 | Every kept pair has a plain property name and a one-line value, when the browser's informative values are one line. |
| Display.ComputedTabShowsFilter | css-inspector-extension/content.js:225-230 | For an element with a tag, the Computed tab carries the joined lines, and shows exactly the filtered allow-list pairs. |
| Display.SplitStyleText | css-inspector-extension/content.js:249 | Splitting a serialised style at `;` gives each declaration piece, then an empty tail. |
| Display.PiecesRender | css-inspector-extension/content.js:249 | Those pieces, without the blank ones, are shown as the declarations. |
| Display.BlockRoundTrip | css-inspector-extension/content.js:249 | An authored block shows back exactly the declarations the browser serialised into its style text, in order, colons in values included. |
| Display.StylesViewAsWrittenThrows | css-inspector-extension/content.js:249 | As written, the Styles view fails for every element with a tag on every page (see Findings). |
| Display.StylesViewFixedInline | css-inspector-extension/content.js:249 | As intended, the Styles view lists the element's inline style as an authored block. |
| Display.StylesViewFixedShowsInline | css-inspector-extension/content.js:249 | As intended, the Styles view shows the inline declarations exactly as serialised. |
| Inspector.ButtonLabels | css-inspector-extension/content.js:278-290 | The pause button reads `Unpin` iff pinned, `Resume` iff paused but not pinned, and `Pause` iff neither; the close button and the pinned border show iff pinned. |
| Inspector.InitialInv | css-inspector-extension/content.js:367-369 | The state at injection keeps the invariant and carries no copy text. |
| Inspector.RenderedInv | css-inspector-extension/content.js:261-276 | A render keeps the invariant. |
| Inspector.MouseMoveGuard | css-inspector-extension/content.js:294-310 | While pinned or paused, a mouse move keeps the element; otherwise it changes it only to the element under the mouse, never to a part of the inspector. |
| Inspector.MouseMovedInv | css-inspector-extension/content.js:292-334 | A mouse move keeps the invariant and leaves pause, pin and buttons alone. |
| Inspector.KeyPressedInv | css-inspector-extension/content.js:336-343 | A key press keeps the invariant. |
| Inspector.SpaceTogglesPin | css-inspector-extension/content.js:338-341 | Space outside a text field toggles the pin; the pause follows the pin, and so do the buttons; pinning shows the popup. |
| Inspector.CloseClickedInv | css-inspector-extension/content.js:344-346 | The close button keeps the invariant, and leaves nothing pinned, paused or shown. |
| Inspector.PauseClickedInv | css-inspector-extension/content.js:347-352 | The Pause/Unpin button keeps the invariant. |
| Inspector.PauseClickFlags | css-inspector-extension/content.js:349-350 | Unpinning clears both flags; without a pin, the button toggles the pause alone. |
| Inspector.TabSwitchedInv | css-inspector-extension/content.js:259 | Switching tabs keeps the invariant and sets the tab. |
| Inspector.HideTimerFiredInv | css-inspector-extension/content.js:326-332 | A hide timer keeps the invariant, never hides a pinned popup, and changes nothing but visibility; the same holds for the timers at 297-302 and 364. |
| Inspector.CopiedIsCurrentText | css-inspector-extension/content.js:354-357 | A click away from the tabs and the close button copies exactly the current tab's copy text, when there is an element or Sources is active; otherwise it copies nothing. |
| Inspector.StepInv | css-inspector-extension/content.js:292-365 | Every handler keeps the invariant. |
| Inspector.ReachableInv | css-inspector-extension/content.js:367-372 | Every state reachable from injection by any sequence of events keeps the invariant. |
| Inspector.Inspector.constructor | css-inspector-extension/content.js:17-21 | Injection starts unpaused, unpinned, hidden, on the Styles tab, with buttons and view rendered, and the invariant holds. |
| Inspector.Inspector.RenderCurrentView | css-inspector-extension/content.js:261-276 | The copy attribute is removed without an element outside Sources; otherwise it is set to the current tab's copy text. |
| Inspector.Inspector.UpdateButtonStates | css-inspector-extension/content.js:278-290 | The buttons take the look the flags call for. |
| Inspector.Inspector.HandleMouseMove | css-inspector-extension/content.js:292-334 | The new state is the mouse-move transition of the old one; a settled state stays settled. |
| Inspector.Inspector.HandleKeyDown | css-inspector-extension/content.js:336-343 | The new state is the key-press transition of the old one, and the invariant is kept. |
| Inspector.Inspector.CloseClick | css-inspector-extension/content.js:344-346 | The new state is the close transition of the old one, and the invariant is kept. |
| Inspector.Inspector.PauseClick | css-inspector-extension/content.js:347-352 | The new state is the Pause/Unpin transition of the old one, and the invariant is kept. |
| Inspector.Inspector.Unpin | css-inspector-extension/content.js:349 | While pinned, the button unpins and unpauses, then replays the last mouse move or hides everything, then updates the buttons. |
| Inspector.Inspector.TogglePause | css-inspector-extension/content.js:350-351 | Without a pin, the button toggles the pause; resuming with an element replays the last mouse move and shows the popup; pausing hides the overlay. |
| Inspector.Inspector.SwitchTab | css-inspector-extension/content.js:259 | The new state has the tab set and its view rendered, and the invariant is kept. |
| Inspector.Inspector.HideTimeout | css-inspector-extension/content.js:297-302 | The new state is the hide-timer transition (the paused variant, or the one from line 326 and line 364), and the invariant is kept. |
| Inspector.Inspector.PopupClick | css-inspector-extension/content.js:354-357 | Returns the attribute when the click is away from the tabs and the close button and the attribute is non-empty; this is the current tab's copy text. |

## Left out

- UI construction (lines 23-184) and injection and cleanup (lines 1-15, 374-383): these build DOM nodes and styles, and hold no logic the model needs.
- The HTML that `formatCSSForDisplay` produces (lines 244-253) is left out.
  - It is reduced to the pairs the property renderer shows and to the Styles view's inline and matched-rule lists.
  - The colour swatch (lines 186-193), the header with dimensions and font (lines 216-217), media-rule grouping, hover rows and the Sources list are not modelled.
- `createTabs` (lines 255-258): rebuilding the tab buttons has no state beyond `activeTab`.
- Overlay and popup geometry (lines 312-313, 320-323): pixel arithmetic on browser measurements.
- Timer scheduling and `clearTimeout`: only the bodies of the hide callbacks are modelled, as the `HideTimer` event that may arrive at any time. Which timers are pending, and their cancellation by `mouseenter` (line 361), are not modelled.
- `mouseleave` (lines 362-365) is modelled only through the timer body it schedules.
- The Stop button (line 353) calls the cleanup, which is left out.
- The clipboard write and the copy notification (lines 358-360) are left out; the model returns the text that would be written.
- popup.js is not part of this model.
- Text.ToLower: only ASCII letters are lowered. `String.prototype.toLowerCase` lowers all of Unicode.
- The page is fixed for the life of an `Inspector`: stylesheets, matching and computed styles do not change between events. Elements are compared by value, not by identity.
- Inspector.Inspector.constructor requires `computedStyleAvailable`. Without `getComputedStyle`, `renderCurrentView` throws at line 217 (`getFontInfo`, called at line 272) on every tab as soon as there is an element, before any tab-specific code runs. The state machine does not model that exception.
- The handlers and the lemmas about them model the program with line 249 corrected (see Findings). As written, a render on the Styles tab with an element throws at line 274, through line 249, so line 275 never runs and `data-raw-css` keeps whatever value it had. The lines below name each member this affects and say what the program does instead.
- Inspector.Inspector.RenderCurrentView: on the Styles tab with an element, the method sets `data-raw-css` to the Styles copy text. As written, line 274 throws and the attribute is left unchanged.
- Inspector.RenderedInv: the same holds for the render transition `Rendered` that the lemma is about.
- Inspector.MouseMoved: as written, a mouse move over a page element on the Styles tab sets `currentElement` (line 309), and then the render at line 310 throws. So lines 312-317 do not run for that move:
  - the move does not show the popup and the overlay;
  - a pending hide timer is not cleared;
  - `data-raw-css` keeps its old value.
  The model shows the popup and the overlay and refreshes the copy text.
- Inspector.MouseMovedInv: the same holds for the mouse-move transition the lemma is about.
- Inspector.Inspector.HandleMouseMove: the same holds for the method.
- Inspector.KeyPressedInv: when Space pins the popup on the Styles tab with an element, the render at line 340 throws as written. The flags, the buttons and the popup and overlay display have already changed by then, so only `data-raw-css` differs from the model. When Space unpins, the replay at line 341 behaves as the mouse move above.
- Inspector.Inspector.HandleKeyDown: the same holds for the method.
- Inspector.PauseClickedInv: as written, the replay at line 349 or line 350 throws on the Styles tab when the last mouse position is over a page element. The rest of the handler is then skipped. On a resume, line 350 does not show the popup and the overlay. In both branches `updateButtonStates()` at line 351 does not run, so the buttons keep the look of the old flags.
- Inspector.Inspector.PauseClick: the same holds for the method.
- Inspector.Inspector.Unpin: the same holds for the replay at line 349; the buttons keep the pinned look after the flags are cleared.
- Inspector.Inspector.TogglePause: the same holds for the replay at line 350; the popup and the overlay are not shown, and the buttons keep the paused look.
- Inspector.TabSwitchedInv: as written, switching to Styles with an element throws at line 274, through line 259. The tab buttons already show Styles, but the tab content and `data-raw-css` keep the previous tab's. A popup click then copies that tab's text, for instance the Computed list, while Styles is active.
- Inspector.Inspector.SwitchTab: the same holds for the method.
- Inspector.StepInv: it is built from the transitions above, so it does not capture any of these consequences.
- Inspector.ReachableInv: the invariant is proved for the corrected program. As written, it fails on some reachable states: a throwing replay inside the Pause/Unpin handler leaves the buttons out of step with the flags. The popup is not always hidden on the Styles tab, though. After a throwing move has set `currentElement`, the user can move onto the control bar and click Pause, then Resume. The replayed move is the one over the Pause button, which renders nothing and does not throw, so line 350 then shows the popup and the overlay with stale content. From there the Computed and Sources tabs render normally, and a switch back to Styles leaves their copy text in `data-raw-css`.
- Exceptions thrown by the handlers are not modelled in general.
- Authored.GetAuthoredRules and Hover.GetHoverStyles: the guard on `typeof element.matches` (lines 196 and 211) is not modelled, because every inspected value is an element.

## Findings

| source | as written | input that shows it | evidently intended | confidence | as-written member | corrected member |
|---|---|---|---|---|---|---|
| css-inspector-extension/content.js:249 | `const { authoredRules } = inspectedData.cssData` reads an `authoredRules` key from `cssData`. Line 233 already set `cssData` to the authored-rules object, which has only `inlineStyle`, `matchedRules` and `mediaQueryRules`. So the binding is `undefined`, and reading `authoredRules.inlineStyle` throws. The throw also aborts `renderCurrentView`, and so `handleMouseMove` at line 310. On the Styles tab, which is active on injection, a mouse move over an element therefore does not show the popup (lines 312-317 are skipped), and switching to Styles leaves the previous tab's text in `data-raw-css`. Reaching the popup through the Pause button shows it with stale content. | Any element with a tag, on the Styles tab, on any page | Destructuring from `inspectedData` itself, or using `cssData` directly, so that the inline style and the matched rules are listed | not executed | Display.StylesViewAsWrittenThrows | Display.StylesViewFixedShowsInline |
