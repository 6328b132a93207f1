/**
 * The computed-style filter of the Computed tab: every property of a fixed
 * allow-list, in the list's order, whose computed value is not blank and not
 * one of the values that say nothing about the element.
 */
module Computed {
  import opened Text
  import opened Cssom

  /** The allow-list, grouped by layout, box, colour, typography, position and effects. */
  const ImportantProperties: seq<string> := [
    "display", "position", "width", "height", "margin", "padding", "border", "border-color",
    "border-top-color", "border-right-color", "border-bottom-color", "border-left-color",
    "border-radius", "border-width", "background", "background-color", "color", "font-family",
    "font-size", "font-weight", "line-height", "text-align", "top", "right", "bottom", "left",
    "z-index", "outline", "outline-color", "overflow", "opacity", "visibility", "float", "clear",
    "flex", "align-items", "justify-content", "grid", "box-shadow", "text-shadow", "transition",
    "transform", "cursor", "pointer-events"]

  /** Characters that end a name: the colon, the semicolon and the line break. */
  predicate NameBreak(c: char) {
    c == ':' || c == ';' || c == '\n'
  }

  /** A name as the browser writes one: no colon, semicolon or line break, no `/` first, no white space at either end. */
  predicate PropertyName(p: string) {
    && p != [] && p[0] != '/' && !IsSpace(p[0]) && !IsSpace(p[|p| - 1])
    && forall i :: 0 <= i < |p| ==> !NameBreak(p[i])
  }

  /** Every name on the allow-list is a plain property name (checked two names at a time). */
  lemma AllowListNames()
    ensures forall k :: 0 <= k < |ImportantProperties| ==> PropertyName(ImportantProperties[k])
  {
    AllowListNames0();
    AllowListNames1();
    AllowListNames2();
    AllowListNames3();
    AllowListNames4();
    AllowListNames5();
    AllowListNames6();
    AllowListNames7();
    AllowListNames8();
    AllowListNames9();
    AllowListNames10();
    AllowListNames11();
    AllowListNames12();
    AllowListNames13();
    AllowListNames14();
    AllowListNames15();
    AllowListNames16();
    AllowListNames17();
    AllowListNames18();
    AllowListNames19();
    AllowListNames20();
    AllowListNames21();
  }

  lemma AllowListNames0()
    ensures PropertyName(ImportantProperties[0]) && PropertyName(ImportantProperties[1])
  {
    assert PropertyName(ImportantProperties[0]);
  }

  lemma AllowListNames1()
    ensures PropertyName(ImportantProperties[2]) && PropertyName(ImportantProperties[3])
  {
    assert PropertyName(ImportantProperties[2]);
  }

  lemma AllowListNames2()
    ensures PropertyName(ImportantProperties[4]) && PropertyName(ImportantProperties[5])
  {
    assert PropertyName(ImportantProperties[4]);
  }

  lemma AllowListNames3()
    ensures PropertyName(ImportantProperties[6]) && PropertyName(ImportantProperties[7])
  {
    assert PropertyName(ImportantProperties[6]);
  }

  lemma AllowListNames4()
    ensures PropertyName(ImportantProperties[8]) && PropertyName(ImportantProperties[9])
  {
    assert PropertyName(ImportantProperties[8]);
  }

  lemma AllowListNames5()
    ensures PropertyName(ImportantProperties[10]) && PropertyName(ImportantProperties[11])
  {
    assert PropertyName(ImportantProperties[10]);
  }

  lemma AllowListNames6()
    ensures PropertyName(ImportantProperties[12]) && PropertyName(ImportantProperties[13])
  {
    assert PropertyName(ImportantProperties[12]);
  }

  lemma AllowListNames7()
    ensures PropertyName(ImportantProperties[14]) && PropertyName(ImportantProperties[15])
  {
    assert PropertyName(ImportantProperties[14]);
  }

  lemma AllowListNames8()
    ensures PropertyName(ImportantProperties[16]) && PropertyName(ImportantProperties[17])
  {
    assert PropertyName(ImportantProperties[16]);
  }

  lemma AllowListNames9()
    ensures PropertyName(ImportantProperties[18]) && PropertyName(ImportantProperties[19])
  {
    assert PropertyName(ImportantProperties[18]);
  }

  lemma AllowListNames10()
    ensures PropertyName(ImportantProperties[20]) && PropertyName(ImportantProperties[21])
  {
    assert PropertyName(ImportantProperties[20]);
  }

  lemma AllowListNames11()
    ensures PropertyName(ImportantProperties[22]) && PropertyName(ImportantProperties[23])
  {
    assert PropertyName(ImportantProperties[22]);
  }

  lemma AllowListNames12()
    ensures PropertyName(ImportantProperties[24]) && PropertyName(ImportantProperties[25])
  {
    assert PropertyName(ImportantProperties[24]);
  }

  lemma AllowListNames13()
    ensures PropertyName(ImportantProperties[26]) && PropertyName(ImportantProperties[27])
  {
    assert PropertyName(ImportantProperties[26]);
  }

  lemma AllowListNames14()
    ensures PropertyName(ImportantProperties[28]) && PropertyName(ImportantProperties[29])
  {
    assert PropertyName(ImportantProperties[28]);
  }

  lemma AllowListNames15()
    ensures PropertyName(ImportantProperties[30]) && PropertyName(ImportantProperties[31])
  {
    assert PropertyName(ImportantProperties[30]);
  }

  lemma AllowListNames16()
    ensures PropertyName(ImportantProperties[32]) && PropertyName(ImportantProperties[33])
  {
    assert PropertyName(ImportantProperties[32]);
  }

  lemma AllowListNames17()
    ensures PropertyName(ImportantProperties[34]) && PropertyName(ImportantProperties[35])
  {
    assert PropertyName(ImportantProperties[34]);
  }

  lemma AllowListNames18()
    ensures PropertyName(ImportantProperties[36]) && PropertyName(ImportantProperties[37])
  {
    assert PropertyName(ImportantProperties[36]);
  }

  lemma AllowListNames19()
    ensures PropertyName(ImportantProperties[38]) && PropertyName(ImportantProperties[39])
  {
    assert PropertyName(ImportantProperties[38]);
  }

  lemma AllowListNames20()
    ensures PropertyName(ImportantProperties[40]) && PropertyName(ImportantProperties[41])
  {
    assert PropertyName(ImportantProperties[40]);
  }

  lemma AllowListNames21()
    ensures PropertyName(ImportantProperties[42]) && PropertyName(ImportantProperties[43])
  {
    assert PropertyName(ImportantProperties[42]);
  }

  /** A computed value worth showing: not empty and not `none`, `auto`, `normal`, `0px` or transparent black. */
  predicate Informative(v: string) {
    v != "" && v != "none" && v != "auto" && v != "normal" && v != "0px" && v != "rgba(0, 0, 0, 0)"
  }

  /** One line of the computed block: `prop: value;`. */
  function ComputedLine(prop: string, value: string): string {
    prop + ": " + value + ";"
  }

  /** The (property, value) pairs kept, in allow-list order. */
  function Snapshot(props: seq<string>, e: Element, value: (Element, string) -> string): seq<(string, string)> {
    if props == [] then []
    else
      var p := props[|props| - 1];
      Snapshot(props[..|props| - 1], e, value) + (if Informative(value(e, p)) then [(p, value(e, p))] else [])
  }

  function Lines(snapshot: seq<(string, string)>): seq<string> {
    seq(|snapshot|, k requires 0 <= k < |snapshot| => ComputedLine(snapshot[k].0, snapshot[k].1))
  }

  function Properties(snapshot: seq<(string, string)>): seq<string> {
    seq(|snapshot|, k requires 0 <= k < |snapshot| => snapshot[k].0)
  }

  /** The loop of the Computed tab that builds `cssLines`. */
  method ComputedCssLines(props: seq<string>, e: Element, value: (Element, string) -> string) returns (cssLines: seq<string>)
    ensures cssLines == Lines(Snapshot(props, e, value))
  {
    cssLines := [];
    var i := 0;
    while i < |props|
      invariant 0 <= i <= |props|
      invariant cssLines == Lines(Snapshot(props[..i], e, value))
    {
      assert props[..i + 1][..i] == props[..i];
      var prop := props[i];
      var v := value(e, prop);
      if v != "" && v != "none" && v != "auto" && v != "normal" && v != "0px" && v != "rgba(0, 0, 0, 0)" {
        cssLines := cssLines + [prop + ": " + v + ";"];
      }
      i := i + 1;
    }
    assert props[..i] == props;
  }

  /** A pair is kept exactly when its property is in the list, its value is the computed one, and that value is informative. */
  lemma {:induction false} SnapshotMembers(props: seq<string>, e: Element, value: (Element, string) -> string, p: string, v: string)
    ensures (p, v) in Snapshot(props, e, value) <==> p in props && v == value(e, p) && Informative(v)
  {
    if props != [] {
      var pre := props[..|props| - 1];
      SnapshotMembers(pre, e, value, p, v);
      assert props == pre + [props[|props| - 1]];
    }
  }

  /** The kept properties appear in allow-list order. */
  lemma {:induction false} SnapshotInListOrder(props: seq<string>, e: Element, value: (Element, string) -> string)
    ensures Subsequence(Properties(Snapshot(props, e, value)), props)
  {
    if props != [] {
      var pre, p := props[..|props| - 1], props[|props| - 1];
      SnapshotInListOrder(pre, e, value);
      var s := Snapshot(pre, e, value);
      SubsequenceExtend(Properties(s), pre, p);
      if Informative(value(e, p)) {
        assert Properties(s + [(p, value(e, p))]) == Properties(s) + [p];
        assert (Properties(s) + [p])[..|Properties(s)|] == Properties(s);
      } else {
        assert Snapshot(props, e, value) == s;
      }
    }
  }

}
