/**
 * How the popup reads property lines back out of the text it is given: the
 * name/value splitter of the property renderer, the line lists it is applied
 * to on the Computed and Styles tabs, and the fault in the Styles view that
 * stops it from rendering at all.
 */
module Display {
  import opened Wrappers
  import opened Text
  import opened Cssom
  import opened Authored
  import opened Computed
  import opened CopyText

  /** Drops one trailing `;`. */
  function StripSemicolon(v: string): (r: string)
    ensures EndsWith(v, ";") ==> r + ";" == v
    ensures !EndsWith(v, ";") ==> r == v
  {
    if EndsWith(v, ";") then v[..|v| - 1] else v
  }

  /**
   * One line as the property renderer reads it: the name is the trimmed text
   * before the first `:`, the value the trimmed rest with its colons kept and one
   * trailing `;` dropped. Outside authored blocks, comment lines and lines without
   * a colon are skipped; a line with an empty name or value shows nothing.
   */
  function ParsePropertyLine(line: string, authoredBlock: bool): Option<(string, string)> {
    if !authoredBlock && (StartsWith(line, "/*") || ':' !in line) then None
    else
      var parts := Split(line, ':');
      var name := Trim(parts[0]);
      var value := StripSemicolon(Trim(Join(parts[1..], ":")));
      if name != "" && value != "" then Some((name, value)) else None
  }

  /** The values `f` gives for the elements of `xs`, in order, skipping the elements it gives nothing for. */
  function Collect<T, U>(xs: seq<T>, f: T -> Option<U>): seq<U> {
    if xs == [] then []
    else
      var p := f(xs[|xs| - 1]);
      Collect(xs[..|xs| - 1], f) + (if p.Some? then [p.value] else [])
  }

  /** The elements of `xs` that `keep` holds for, in order. */
  function Filter<T>(xs: seq<T>, keep: T -> bool): seq<T> {
    if xs == [] then []
    else Filter(xs[..|xs| - 1], keep) + (if keep(xs[|xs| - 1]) then [xs[|xs| - 1]] else [])
  }

  function LineParser(authoredBlock: bool): string -> Option<(string, string)> {
    line => ParsePropertyLine(line, authoredBlock)
  }

  /** The (name, value) pairs a block shows, in line order. */
  function RenderedProperties(lines: seq<string>, authoredBlock: bool): seq<(string, string)> {
    Collect(lines, LineParser(authoredBlock))
  }

  /** The loop of the renderer over the lines of a block. */
  method RenderProperties(lines: seq<string>, authoredBlock: bool) returns (shown: seq<(string, string)>)
    ensures shown == RenderedProperties(lines, authoredBlock)
  {
    shown := [];
    var i := 0;
    while i < |lines|
      invariant 0 <= i <= |lines|
      invariant shown == RenderedProperties(lines[..i], authoredBlock)
    {
      assert lines[..i + 1][..i] == lines[..i];
      var p := ParsePropertyLine(lines[i], authoredBlock);
      if p.Some? {
        shown := shown + [p.value];
      }
      i := i + 1;
    }
    assert lines[..i] == lines;
  }

  predicate NotBlank(s: string) {
    Trim(s) != ""
  }

  /** The pieces of a style text around its semicolons that are not blank. */
  function NonBlank(pieces: seq<string>): seq<string> {
    Filter(pieces, NotBlank)
  }

  /** The pairs an authored block (inline style or a rule's style) shows. */
  function BlockProperties(css: string): seq<(string, string)> {
    RenderedProperties(NonBlank(Split(css, ';')), true)
  }

  /** The pairs the Computed tab shows for its data. */
  function ComputedProperties(cssData: string): seq<(string, string)> {
    RenderedProperties(Split(cssData, '\n'), false)
  }

  // ----- the splitter -----

  /** Nothing is shown for a line without a colon, whatever the block. */
  lemma ParsedLineHasColon(line: string, authoredBlock: bool)
    ensures ParsePropertyLine(line, authoredBlock).Some? ==> ':' in line
  {
    if ':' !in line {
      SplitNoSep(line, ':');
      assert Split(line, ':')[1..] == [];
    }
  }

  /** The line is cut at its first colon: the name comes from before it, the value from everything after it. */
  lemma ParseAtFirstColon(line: string, i: nat, authoredBlock: bool)
    requires i < |line| && line[i] == ':' && ':' !in line[..i]
    requires authoredBlock || !StartsWith(line, "/*")
    ensures var name, value := Trim(line[..i]), StripSemicolon(Trim(line[i + 1..]));
      ParsePropertyLine(line, authoredBlock) == if name != "" && value != "" then Some((name, value)) else None
  {
    SplitFirst(line, ':', i);
  }

  /** A value on one line with no white space at either end; it may contain colons. */
  predicate OneLineValue(v: string) {
    v != [] && '\n' !in v && !IsSpace(v[0]) && !IsSpace(v[|v| - 1])
  }

  lemma TrimUnchanged(s: string)
    requires s != [] && !IsSpace(s[0]) && !IsSpace(s[|s| - 1])
    ensures Trim(s) == s
  {
  }

  lemma TrimLeadingBlanks(lead: string, s: string)
    requires AllSpace(lead) && s != [] && !IsSpace(s[0])
    ensures TrimStart(lead + s) == s
    decreases |lead|
  {
    if lead != [] {
      assert (lead + s)[1..] == lead[1..] + s;
      TrimLeadingBlanks(lead[1..], s);
    } else {
      assert lead + s == s;
    }
  }

  /** Cutting `a:b` at the colon that follows a colon-free `a`. */
  lemma CutAtColon(a: string, b: string)
    requires ':' !in a
    ensures var line := a + ":" + b;
      |a| < |line| && line[|a|] == ':' && line[..|a|] == a && ':' !in line[..|a|] && line[|a| + 1..] == b
  {
    var line := a + ":" + b;
    assert line[..|a|] == a;
    assert line[|a| + 1..] == b;
  }

  lemma TrimValue(value: string, tail: string)
    requires OneLineValue(value) && (tail == "" || tail == ";")
    ensures Trim(" " + (value + tail)) == value + tail
  {
    TrimLeadingBlanks(" ", value + tail);
    assert (value + tail)[|value + tail| - 1] == if tail == "" then value[|value| - 1] else ';';
  }

  lemma StripTail(value: string, tail: string)
    requires OneLineValue(value) && (tail == "" || tail == ";")
    requires ';' !in value || tail == ";"
    ensures StripSemicolon(value + tail) == value
  {
    if tail == "" {
      assert value + tail == value;
      assert value[|value| - 1] in value;
    } else {
      assert (value + tail)[..|value|] == value;
    }
  }

  /**
   * A declaration `name: value`, after any white space, reads back as that name
   * and value, colons in the value included.
   */
  lemma ParseDeclaration(lead: string, name: string, value: string, tail: string, authoredBlock: bool)
    requires AllSpace(lead) && PropertyName(name) && OneLineValue(value)
    requires tail == "" || tail == ";"
    requires ';' !in value || tail == ";"
    requires authoredBlock || lead == ""
    ensures ParsePropertyLine(lead + name + ": " + value + tail, authoredBlock) == Some((name, value))
  {
    var a, b := lead + name, " " + (value + tail);
    assert lead + name + ": " + value + tail == a + ":" + b;
    assert ':' !in a by {
      assert forall j :: 0 <= j < |a| ==> a[j] == if j < |lead| then lead[j] else name[j - |lead|];
      assert forall j :: 0 <= j < |a| ==> a[j] != ':';
    }
    CutAtColon(a, b);
    if !authoredBlock {
      assert (a + ":" + b)[0] == name[0];
    }
    ParseAtFirstColon(a + ":" + b, |a|, authoredBlock);
    TrimLeadingBlanks(lead, name);
    TrimValue(value, tail);
    StripTail(value, tail);
  }

  /** A computed line reads back as its property and value. */
  lemma ParseComputedLine(prop: string, value: string)
    requires PropertyName(prop) && OneLineValue(value)
    ensures ParsePropertyLine(ComputedLine(prop, value), false) == Some((prop, value))
  {
    assert "" + prop + ": " + value + ";" == ComputedLine(prop, value);
    ParseDeclaration("", prop, value, ";", false);
  }

  /** Elements that each give one value yield exactly those values, in order. */
  lemma {:induction false} CollectEach<T, U>(xs: seq<T>, f: T -> Option<U>, ys: seq<U>)
    requires |xs| == |ys|
    requires forall k :: 0 <= k < |xs| ==> f(xs[k]) == Some(ys[k])
    ensures Collect(xs, f) == ys
  {
    if xs != [] {
      var n := |xs| - 1;
      CollectEach(xs[..n], f, ys[..n]);
      assert ys == ys[..n] + [ys[n]];
    }
  }

  /** Elements that `keep` holds for are all kept. */
  lemma {:induction false} FilterEach<T>(xs: seq<T>, keep: T -> bool)
    requires forall k :: 0 <= k < |xs| ==> keep(xs[k])
    ensures Filter(xs, keep) == xs
  {
    if xs != [] {
      var n := |xs| - 1;
      FilterEach(xs[..n], keep);
      assert xs == xs[..n] + [xs[n]];
    }
  }

  lemma FilterSnoc<T>(xs: seq<T>, x: T, keep: T -> bool)
    ensures Filter(xs + [x], keep) == Filter(xs, keep) + (if keep(x) then [x] else [])
  {
    assert (xs + [x])[..|xs|] == xs;
  }

  /** All but the last element are kept and give one value each, and the last is dropped: the values are those. */
  lemma FilterCollect<T, U>(xs: seq<T>, ys: seq<U>, keep: T -> bool, f: T -> Option<U>)
    requires |xs| == |ys| + 1 && !keep(xs[|ys|])
    requires forall k :: 0 <= k < |ys| ==> keep(xs[k]) && f(xs[k]) == Some(ys[k])
    ensures Collect(Filter(xs, keep), f) == ys
  {
    var n := |ys|;
    FilterEach(xs[..n], keep);
    assert Filter(xs, keep) == xs[..n];
    CollectEach(xs[..n], f, ys);
  }

  /** Lines that each read back as one pair show exactly those pairs, in order. */
  lemma RenderedEach(lines: seq<string>, ds: seq<(string, string)>, authoredBlock: bool)
    requires |lines| == |ds|
    requires forall k :: 0 <= k < |lines| ==> ParsePropertyLine(lines[k], authoredBlock) == Some(ds[k])
    ensures RenderedProperties(lines, authoredBlock) == ds
  {
    CollectEach(lines, LineParser(authoredBlock), ds);
  }

  /** Pieces none of which is blank are all kept. */
  lemma NonBlankEach(pieces: seq<string>)
    requires forall k :: 0 <= k < |pieces| ==> Trim(pieces[k]) != ""
    ensures NonBlank(pieces) == pieces
  {
    FilterEach(pieces, NotBlank);
  }

  /** Every kept line of a computed snapshot is shown again, as its property and value, in order. */
  lemma ComputedLinesRoundTrip(snapshot: seq<(string, string)>)
    requires forall k :: 0 <= k < |snapshot| ==> PropertyName(snapshot[k].0) && OneLineValue(snapshot[k].1)
    ensures RenderedProperties(Lines(snapshot), false) == snapshot
  {
    var lines := Lines(snapshot);
    forall k | 0 <= k < |lines|
      ensures ParsePropertyLine(lines[k], false) == Some(snapshot[k])
    {
      ParseComputedLine(snapshot[k].0, snapshot[k].1);
    }
    RenderedEach(lines, snapshot, false);
  }

  lemma ComputedLineOneLine(prop: string, value: string)
    requires PropertyName(prop) && OneLineValue(value)
    ensures '\n' !in ComputedLine(prop, value)
  {
    var line := ComputedLine(prop, value);
    assert line == prop + (": " + value + ";");
    assert forall j :: |prop| <= j < |line| ==> line[j] == (": " + value + ";")[j - |prop|];
    assert forall j :: 0 <= j < |prop| ==> line[j] == prop[j];
  }

  /** The Computed tab shows exactly the pairs its filter kept, when the kept values fit on one line. */
  lemma ComputedViewRoundTrip(snapshot: seq<(string, string)>)
    requires forall k :: 0 <= k < |snapshot| ==> PropertyName(snapshot[k].0) && OneLineValue(snapshot[k].1)
    ensures ComputedProperties(Join(Lines(snapshot), "\n")) == snapshot
  {
    var lines := Lines(snapshot);
    if lines == [] {
      assert Split("", '\n') == [""];
      assert ParsePropertyLine("", false) == None;
      assert [""][..0] == [];
    } else {
      forall k | 0 <= k < |lines|
        ensures '\n' !in lines[k]
      {
        assert lines[k] == ComputedLine(snapshot[k].0, snapshot[k].1);
        ComputedLineOneLine(snapshot[k].0, snapshot[k].1);
      }
      SplitJoin(lines, '\n');
      ComputedLinesRoundTrip(snapshot);
    }
  }

  /** The kept pairs carry allow-list names and, given one-line informative values, one-line values. */
  lemma SnapshotNames(props: seq<string>, e: Element, value: (Element, string) -> string)
    requires forall k :: 0 <= k < |props| ==> PropertyName(props[k])
    requires forall k :: 0 <= k < |props| ==> Informative(value(e, props[k])) ==> OneLineValue(value(e, props[k]))
    ensures forall k :: 0 <= k < |Snapshot(props, e, value)| ==>
      PropertyName(Snapshot(props, e, value)[k].0) && OneLineValue(Snapshot(props, e, value)[k].1)
  {
    var s := Snapshot(props, e, value);
    forall k | 0 <= k < |s|
      ensures PropertyName(s[k].0) && OneLineValue(s[k].1)
    {
      var d := s[k];
      assert d in s;
      SnapshotMembers(props, e, value, d.0, d.1);
      var j :| 0 <= j < |props| && props[j] == d.0;
    }
  }

  /**
   * On the Computed tab the popup lists, in allow-list order, exactly the
   * informative computed properties of the element, provided their values fit
   * on one line without surrounding white space.
   */
  lemma ComputedTabShowsFilter(e: Element, page: Page)
    requires e.tagName != "" && page.computedStyleAvailable
    requires forall k :: 0 <= k < |ImportantProperties| ==>
      Informative(page.computedValue(e, ImportantProperties[k])) ==> OneLineValue(page.computedValue(e, ImportantProperties[k]))
    ensures InspectedElementData(ComputedTab, Some(e), page).cssData
      == ComputedCss(ComputedText(e, page))
    ensures ComputedProperties(ComputedText(e, page)) == Snapshot(ImportantProperties, e, page.computedValue)
  {
    AllowListNames();
    SnapshotNames(ImportantProperties, e, page.computedValue);
    ComputedViewRoundTrip(Snapshot(ImportantProperties, e, page.computedValue));
  }

  // ----- authored blocks -----

  /** A declaration of an authored block: a plain name and a one-line value without semicolons. */
  predicate PlainPair(d: (string, string)) {
    PropertyName(d.0) && OneLineValue(d.1) && ';' !in d.1
  }

  function DeclarationText(d: (string, string)): string {
    d.0 + ": " + d.1
  }

  /** The browser's `style.cssText` for these declarations. */
  function StyleText(decls: seq<(string, string)>): string {
    CssTextOf(seq(|decls|, k requires 0 <= k < |decls| => DeclarationText(decls[k])))
  }

  /** The pieces of `d1; d2; …; dn;` around its semicolons: `d1`, then ` d2` … ` dn` after a space, then an empty tail. */
  function Pieces(decls: seq<(string, string)>, lead: string): seq<string>
    requires |decls| >= 1
  {
    if |decls| == 1 then [lead + DeclarationText(decls[0]), ""]
    else [lead + DeclarationText(decls[0])] + Pieces(decls[1..], " ")
  }

  lemma {:induction false} SplitStyleText(decls: seq<(string, string)>, lead: string)
    requires |decls| >= 1 && (lead == "" || lead == " ")
    requires forall k :: 0 <= k < |decls| ==> PlainPair(decls[k])
    ensures Split(lead + StyleText(decls), ';') == Pieces(decls, lead)
  {
    var texts := seq(|decls|, k requires 0 <= k < |decls| => DeclarationText(decls[k]));
    var first := lead + DeclarationText(decls[0]);
    assert ';' !in first by {
      assert first == lead + decls[0].0 + ": " + decls[0].1;
    }
    if |decls| == 1 {
      assert lead + StyleText(decls) == first + [';'] + "";
      SplitPrefix(first, "", ';');
    } else {
      var rest := StyleText(decls[1..]);
      assert texts[1..] == seq(|decls| - 1, k requires 0 <= k < |decls| - 1 => DeclarationText(decls[1..][k]));
      assert lead + StyleText(decls) == first + [';'] + (" " + rest);
      SplitPrefix(first, " " + rest, ';');
      SplitStyleText(decls[1..], " ");
    }
  }

  lemma PiecesRender(decls: seq<(string, string)>, lead: string)
    requires |decls| >= 1 && (lead == "" || lead == " ")
    requires forall k :: 0 <= k < |decls| ==> PlainPair(decls[k])
    ensures RenderedProperties(NonBlank(Pieces(decls, lead)), true) == decls
  {
    var ps := Pieces(decls, lead);
    PiecesTail(decls, lead);
    forall k | 0 <= k < |decls|
      ensures NotBlank(ps[k]) && LineParser(true)(ps[k]) == Some(decls[k])
    {
      PieceAt(decls, lead, k);
      DeclarationPiece(if k == 0 then lead else " ", decls[k]);
    }
    assert !NotBlank(ps[|decls|]);
    FilterCollect(ps, decls, NotBlank, LineParser(true));
  }

  lemma {:induction false} PiecesTail(decls: seq<(string, string)>, lead: string)
    requires |decls| >= 1
    ensures |Pieces(decls, lead)| == |decls| + 1 && Pieces(decls, lead)[|decls|] == ""
  {
    if |decls| > 1 {
      PiecesTail(decls[1..], " ");
    }
  }

  /** Piece `k` is declaration `k`, after the lead for the first and after a space for the others. */
  lemma {:induction false} PieceAt(decls: seq<(string, string)>, lead: string, k: nat)
    requires k < |decls|
    ensures |Pieces(decls, lead)| == |decls| + 1
    ensures Pieces(decls, lead)[k] == (if k == 0 then lead else " ") + DeclarationText(decls[k])
  {
    PiecesTail(decls, lead);
    if k > 0 {
      PieceAt(decls[1..], " ", k - 1);
      assert decls[1..][k - 1] == decls[k];
    }
  }

  /** One piece `name: value`, after the white space before it, is not blank and reads back as the declaration. */
  lemma DeclarationPiece(lead: string, d: (string, string))
    requires (lead == "" || lead == " ") && PlainPair(d)
    ensures Trim(lead + DeclarationText(d)) != ""
    ensures ParsePropertyLine(lead + DeclarationText(d), true) == Some(d)
  {
    var first := lead + DeclarationText(d);
    assert first == lead + d.0 + ": " + d.1 + "";
    ParseDeclaration(lead, d.0, d.1, "", true);
    assert first == lead + (d.0 + ": " + d.1);
    TrimLeadingBlanks(lead, d.0 + ": " + d.1);
    assert TrimStart(first)[0] == d.0[0];
  }

  /**
   * An authored block shows back exactly the declarations the browser serialised
   * into its style text, in order, values with colons included.
   */
  lemma BlockRoundTrip(decls: seq<(string, string)>)
    requires forall k :: 0 <= k < |decls| ==> PlainPair(decls[k])
    ensures BlockProperties(StyleText(decls)) == decls
  {
    if decls == [] {
      assert Split("", ';') == [""];
      FilterSnoc([], "", NotBlank);
      assert [] + [""] == [""];
    } else {
      assert "" + StyleText(decls) == StyleText(decls);
      SplitStyleText(decls, "");
      PiecesRender(decls, "");
    }
  }

  // ----- the Styles view -----

  /** What the Styles view lists: the inline declarations, then each matched rule's selector and declarations. */
  datatype StylesView = StylesView(inline: seq<(string, string)>, matched: seq<(string, seq<(string, string)>)>)

  function StylesViewOf(ar: AuthoredRules): StylesView {
    StylesView(
      if Truthy(ar.inlineStyle) then BlockProperties(ar.inlineStyle.value) else [],
      seq(|ar.matchedRules|, k requires 0 <= k < |ar.matchedRules| =>
        (ar.matchedRules[k].selectorText, BlockProperties(ar.matchedRules[k].cssText))))
  }

  /** The own property names of the object the authored-rule collector returns. */
  const AuthoredRulesKeys: set<string> := {"inlineStyle", "matchedRules", "mediaQueryRules"}

  /**
   * The Styles view as written: it destructures `authoredRules` out of `cssData`,
   * which already is the authored-rules object; the binding is undefined unless
   * that object has such a key, and then reading `inlineStyle` from it throws
   * (None).
   */
  function StylesViewAsWritten(data: InspectedData): Option<StylesView> {
    match data.cssData
    case AuthoredCss(ar) =>
      if "authoredRules" in AuthoredRulesKeys then Some(StylesViewOf(ar)) else None
    case _ => None
  }

  /** The Styles view as intended: it reads the authored rules the data carries. */
  function StylesViewFixed(data: InspectedData): Option<StylesView> {
    match data.cssData
    case AuthoredCss(ar) => Some(StylesViewOf(ar))
    case _ => None
  }

  /**
   * As written, the Styles view throws for every element with a tag on every page.
   * The model has no JavaScript objects: `AuthoredRulesKeys` records the shape of
   * the object line 233 stores in `cssData`, so the lemma shows the fault as it
   * follows from that shape, not from evaluating a property lookup.
   */
  lemma StylesViewAsWrittenThrows(e: Element, page: Page)
    requires e.tagName != ""
    ensures InspectedElementData(StylesTab, Some(e), page).selectorForDisplay != "N/A"
    ensures StylesViewAsWritten(InspectedElementData(StylesTab, Some(e), page)) == None
  {
    StylesTabData(e, page);
    LabelNeverNA(e);
    NoAuthoredRulesKey();
  }

  lemma NoAuthoredRulesKey()
    ensures "authoredRules" !in AuthoredRulesKeys
  {
  }

  /** As intended, the Styles view lists the element's inline style text, when it has one, as an authored block. */
  lemma StylesViewFixedInline(e: Element, page: Page)
    requires e.tagName != ""
    ensures StylesViewFixed(InspectedElementData(StylesTab, Some(e), page)).Some?
    ensures StylesViewFixed(InspectedElementData(StylesTab, Some(e), page)).value.inline
      == if e.inlineStyle == "" then [] else BlockProperties(e.inlineStyle)
  {
    StylesTabData(e, page);
  }

  /**
   * As intended, the Styles view shows the inline declarations of the element
   * back as the browser serialised them.
   */
  lemma StylesViewFixedShowsInline(e: Element, page: Page, decls: seq<(string, string)>)
    requires e.tagName != "" && decls != []
    requires forall k :: 0 <= k < |decls| ==> PlainPair(decls[k])
    requires e.inlineStyle == StyleText(decls)
    ensures StylesViewFixed(InspectedElementData(StylesTab, Some(e), page)).Some?
    ensures StylesViewFixed(InspectedElementData(StylesTab, Some(e), page)).value.inline == decls
  {
    StylesViewFixedInline(e, page);
    BlockRoundTrip(decls);
    assert StyleText(decls) != "" by {
      assert |StyleText(decls)| >= 1;
    }
  }
}
