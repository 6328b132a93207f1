/**
 * The inspector's interaction state: pause and pin flags, the element under
 * inspection, the active tab, what is on screen, and the copy text the popup
 * carries in its `data-raw-css` attribute. Each handler is a method of
 * `Inspector` whose new state is the value of a transition function on the
 * old one; the invariant the handlers keep is proved on those functions.
 */
module Inspector {
  import opened Wrappers
  import opened Cssom
  import opened CopyText

  // ----- the buttons -----

  /** The theme colours the pause button can take. */
  datatype Shade = UnpinButtonBg | BtnToggleBg | BtnPauseBg

  /** What `updateButtonStates` sets: the pause button's text and colours, the close button, the overlay border. */
  datatype Buttons = Buttons(
    pauseLabel: string,
    pauseBackground: Shade,
    pauseTextColor: string,
    closeShown: bool,
    pinnedBorder: bool)

  function ButtonsFor(isPinned: bool, isPaused: bool): Buttons {
    if isPinned then Buttons("Unpin", UnpinButtonBg, "white", true, true)
    else if isPaused then Buttons("Resume", BtnToggleBg, "black", false, false)
    else Buttons("Pause", BtnPauseBg, "white", false, false)
  }

  /**
   * The pause button reads `Unpin` exactly when the popup is pinned, otherwise
   * `Resume` exactly when paused and `Pause` exactly when not; the close button
   * and the pinned border show exactly when pinned.
   */
  lemma ButtonLabels(isPinned: bool, isPaused: bool)
    ensures ButtonsFor(isPinned, isPaused).pauseLabel == "Unpin" <==> isPinned
    ensures ButtonsFor(isPinned, isPaused).pauseLabel == "Resume" <==> !isPinned && isPaused
    ensures ButtonsFor(isPinned, isPaused).pauseLabel == "Pause" <==> !isPinned && !isPaused
    ensures ButtonsFor(isPinned, isPaused).closeShown <==> isPinned
    ensures ButtonsFor(isPinned, isPaused).pinnedBorder <==> isPinned
  {
    assert "Unpin" != "Resume" && "Unpin" != "Pause" && "Resume" != "Pause" by {
      assert "Unpin"[0] != "Resume"[0] && "Unpin"[0] != "Pause"[0] && "Resume"[0] != "Pause"[0];
    }
  }

  // ----- the state and its transitions -----

  /** The ids of the inspector's own overlay, popup, control bar and copy notification. */
  const InspectorIds: set<string> :=
    {"css-inspector-overlay", "css-inspector-popup", "css-inspector-controls", "css-inspector-copy-notification"}

  /** An element that belongs to the inspector itself and is never inspected. */
  predicate InspectorUi(e: Element) {
    e.id in InspectorIds || e.inPopup || e.inControlBar
  }

  /** The `data-raw-css` attribute after a render: absent without an element outside Sources, else the copy text. */
  function RawCssAttribute(tab: Tab, element: Option<Element>, page: Page): Option<string> {
    if element.None? && tab != SourcesTab then None
    else Some(InspectedElementData(tab, element, page).rawCssToCopy)
  }

  datatype State = State(
    isPaused: bool,
    isPinned: bool,
    currentElement: Option<Element>,
    activeTab: Tab,
    hasLastMouse: bool,
    popupShown: bool,
    overlayShown: bool,
    buttons: Buttons,
    rawCss: Option<string>)

  /**
   * What every handler keeps: pinning implies pausing; the buttons match the
   * flags; the element under inspection is never part of the inspector; the
   * copy text is the one for the current tab and element; a pinned popup stays
   * on screen with the overlay exactly when there is an element; the overlay
   * only shows an element, and is hidden while paused without a pin.
   */
  predicate Inv(s: State, page: Page) {
    s.buttons == ButtonsFor(s.isPinned, s.isPaused) && Settled(s, page)
  }

  /** The invariant but for the buttons, which handlers bring up to date last. */
  predicate Settled(s: State, page: Page) {
    && (s.isPinned ==> s.isPaused)
    && (s.currentElement.Some? ==> !InspectorUi(s.currentElement.value))
    && s.rawCss == RawCssAttribute(s.activeTab, s.currentElement, page)
    && (s.isPinned ==> s.popupShown && (s.overlayShown <==> s.currentElement.Some?))
    && (s.overlayShown ==> s.currentElement.Some?)
    && (s.isPaused && !s.isPinned ==> !s.overlayShown)
  }

  /** `renderCurrentView`, as far as the state goes: it refreshes the copy text. */
  function Rendered(s: State, page: Page): State {
    s.(rawCss := RawCssAttribute(s.activeTab, s.currentElement, page))
  }

  function ButtonsUpdated(s: State): State {
    s.(buttons := ButtonsFor(s.isPinned, s.isPaused))
  }

  /** The state at injection: nothing paused, pinned or shown, the Styles tab, then buttons and view rendered. */
  function Initial(page: Page): State {
    var s := State(false, false, None, StylesTab, false, false, false, ButtonsFor(false, false), None);
    Rendered(ButtonsUpdated(s), page)
  }

  /** `handleMouseMove`, with `hit` the element under the mouse. */
  function MouseMoved(s: State, hit: Option<Element>, page: Page): State {
    var s1 := s.(hasLastMouse := true);
    if s.isPinned || s.isPaused then s1
    else if hit.Some? && !InspectorUi(hit.value) then
      Rendered(s1.(currentElement := hit), page).(overlayShown := true, popupShown := true)
    else s1
  }

  /** `handleKeyDown`: Space toggles the pin when the popup shows or is pinned, unless typing in a field. */
  function KeyPressed(s: State, code: string, targetTag: string, targetEditable: bool, hit: Option<Element>, page: Page): State {
    if targetTag == "INPUT" || targetTag == "TEXTAREA" || targetEditable then s
    else if code == "Space" && (s.popupShown || s.isPinned) then
      var pinned := !s.isPinned;
      var s1 := ButtonsUpdated(s.(isPinned := pinned, isPaused := pinned));
      if pinned then Rendered(s1.(popupShown := true, overlayShown := s1.currentElement.Some?), page)
      else if s1.hasLastMouse then MouseMoved(s1, hit, page)
      else s1
    else s
  }

  /** The popup's close button: unpin, unpause, hide. */
  function CloseClicked(s: State): State {
    ButtonsUpdated(s.(isPinned := false, isPaused := false, popupShown := false, overlayShown := false))
  }

  /** The Pause/Unpin button. */
  function PauseClicked(s: State, hit: Option<Element>, page: Page): State {
    var s1 :=
      if s.isPinned then
        var t := s.(isPinned := false, isPaused := false);
        if t.hasLastMouse then MouseMoved(t, hit, page) else t.(popupShown := false, overlayShown := false)
      else
        var t := s.(isPaused := !s.isPaused);
        if !t.isPaused && t.currentElement.Some? && t.hasLastMouse then
          MouseMoved(t, hit, page).(popupShown := true, overlayShown := true)
        else if t.isPaused then t.(overlayShown := false)
        else t;
    ButtonsUpdated(s1)
  }

  /** `switchTab`. */
  function TabSwitched(s: State, tab: Tab, page: Page): State {
    Rendered(s.(activeTab := tab), page)
  }

  /**
   * The body of a hide timer once it fires: the one set while paused hides only
   * if still paused and not pinned, the others only if not pinned.
   */
  function HideTimerFired(s: State, setWhilePaused: bool): State {
    if (if setWhilePaused then s.isPaused && !s.isPinned else !s.isPinned) then
      s.(overlayShown := false, popupShown := false)
    else s
  }

  /** What a click on the popup copies: nothing on the tabs or the close button, else the attribute if it is non-empty. */
  function Copied(s: State, onTabsOrClose: bool): Option<string> {
    if onTabsOrClose then None
    else if s.rawCss.Some? && s.rawCss.value != "" then s.rawCss
    else None
  }

  // ----- the invariant, handler by handler -----

  lemma InitialInv(page: Page)
    ensures Inv(Initial(page), page)
    ensures Initial(page).rawCss == None
  {
  }

  lemma RenderedInv(s: State, page: Page)
    requires Inv(s, page)
    ensures Inv(Rendered(s, page), page)
  {
  }

  /**
   * While pinned or paused a mouse move never changes the element; otherwise it
   * changes it only to the element under the mouse, and never to a part of
   * the inspector.
   */
  lemma MouseMoveGuard(s: State, hit: Option<Element>, page: Page)
    ensures s.isPinned || s.isPaused ==> MouseMoved(s, hit, page).currentElement == s.currentElement
    ensures MouseMoved(s, hit, page).currentElement != s.currentElement ==>
      MouseMoved(s, hit, page).currentElement == hit && !InspectorUi(hit.value)
  {
  }

  /** A mouse move keeps the invariant, and leaves the flags and the buttons alone. */
  lemma MouseMovedInv(s: State, hit: Option<Element>, page: Page)
    requires Settled(s, page)
    ensures Settled(MouseMoved(s, hit, page), page)
    ensures var t := MouseMoved(s, hit, page);
      t.isPinned == s.isPinned && t.isPaused == s.isPaused && t.buttons == s.buttons
  {
  }

  lemma KeyPressedInv(s: State, code: string, targetTag: string, targetEditable: bool, hit: Option<Element>, page: Page)
    requires Inv(s, page)
    ensures Inv(KeyPressed(s, code, targetTag, targetEditable, hit, page), page)
  {
    if !(targetTag == "INPUT" || targetTag == "TEXTAREA" || targetEditable) && code == "Space" && (s.popupShown || s.isPinned) {
      var pinned := !s.isPinned;
      var s1 := ButtonsUpdated(s.(isPinned := pinned, isPaused := pinned));
      if !pinned && s1.hasLastMouse {
        MouseMovedInv(s1, hit, page);
      }
    }
  }

  /** Space pins the popup on screen, or unpins it and clears the pause, and the button follows. */
  lemma SpaceTogglesPin(s: State, targetTag: string, hit: Option<Element>, page: Page)
    requires Inv(s, page) && (s.popupShown || s.isPinned)
    requires targetTag != "INPUT" && targetTag != "TEXTAREA"
    ensures var t := KeyPressed(s, "Space", targetTag, false, hit, page);
      t.isPinned == !s.isPinned && t.isPaused == t.isPinned && t.buttons == ButtonsFor(t.isPinned, t.isPaused)
    ensures !s.isPinned ==> KeyPressed(s, "Space", targetTag, false, hit, page).popupShown
  {
  }

  lemma CloseClickedInv(s: State, page: Page)
    requires Inv(s, page)
    ensures Inv(CloseClicked(s), page)
    ensures !CloseClicked(s).isPinned && !CloseClicked(s).isPaused && !CloseClicked(s).popupShown
  {
  }

  lemma PauseClickedInv(s: State, hit: Option<Element>, page: Page)
    requires Inv(s, page)
    ensures Inv(PauseClicked(s, hit, page), page)
  {
    if s.isPinned {
      var t := s.(isPinned := false, isPaused := false);
      if t.hasLastMouse {
        MouseMovedInv(t, hit, page);
      }
    } else {
      var t := s.(isPaused := !s.isPaused);
      if !t.isPaused && t.currentElement.Some? && t.hasLastMouse {
        MouseMovedInv(t, hit, page);
      }
    }
  }

  /** Unpinning clears both flags; without a pin the button toggles the pause alone. */
  lemma PauseClickFlags(s: State, hit: Option<Element>, page: Page)
    ensures s.isPinned ==> !PauseClicked(s, hit, page).isPinned && !PauseClicked(s, hit, page).isPaused
    ensures !s.isPinned ==> !PauseClicked(s, hit, page).isPinned && PauseClicked(s, hit, page).isPaused == !s.isPaused
  {
  }

  lemma TabSwitchedInv(s: State, tab: Tab, page: Page)
    requires Inv(s, page)
    ensures Inv(TabSwitched(s, tab, page), page)
    ensures TabSwitched(s, tab, page).activeTab == tab
  {
  }

  /** A pinned popup is never hidden by a timer, and a timer changes nothing but visibility. */
  lemma HideTimerFiredInv(s: State, setWhilePaused: bool, page: Page)
    requires Inv(s, page)
    ensures Inv(HideTimerFired(s, setWhilePaused), page)
    ensures s.isPinned ==> HideTimerFired(s, setWhilePaused) == s
    ensures HideTimerFired(s, setWhilePaused).(overlayShown := s.overlayShown, popupShown := s.popupShown) == s
  {
  }

  /**
   * A click on the popup away from its tabs and close button copies exactly
   * the current tab's copy text, whenever there is an element or the Sources
   * tab is active, and nothing otherwise.
   */
  lemma CopiedIsCurrentText(s: State, page: Page)
    requires Inv(s, page)
    ensures s.currentElement.Some? || s.activeTab == SourcesTab ==>
      Copied(s, false) == Some(InspectedElementData(s.activeTab, s.currentElement, page).rawCssToCopy)
    ensures !(s.currentElement.Some? || s.activeTab == SourcesTab) ==> Copied(s, false) == None
    ensures Copied(s, true) == None
  {
    InspectedDataCopyable(s.activeTab, s.currentElement, page);
  }

  // ----- runs of events -----

  datatype Event =
    | MouseMove(hit: Option<Element>)
    | KeyDown(code: string, targetTag: string, targetEditable: bool, keyHit: Option<Element>)
    | CloseClick
    | PauseClick(pauseHit: Option<Element>)
    | TabClick(tab: Tab)
    | HideTimer(setWhilePaused: bool)

  function Step(s: State, ev: Event, page: Page): State {
    match ev
    case MouseMove(hit) => MouseMoved(s, hit, page)
    case KeyDown(code, tag, editable, hit) => KeyPressed(s, code, tag, editable, hit, page)
    case CloseClick => CloseClicked(s)
    case PauseClick(hit) => PauseClicked(s, hit, page)
    case TabClick(tab) => TabSwitched(s, tab, page)
    case HideTimer(setWhilePaused) => HideTimerFired(s, setWhilePaused)
  }

  function Run(s: State, evs: seq<Event>, page: Page): State {
    if evs == [] then s else Step(Run(s, evs[..|evs| - 1], page), evs[|evs| - 1], page)
  }

  lemma StepInv(s: State, ev: Event, page: Page)
    requires Inv(s, page)
    ensures Inv(Step(s, ev, page), page)
  {
    match ev
    case MouseMove(hit) => MouseMovedInv(s, hit, page);
    case KeyDown(code, tag, editable, hit) => KeyPressedInv(s, code, tag, editable, hit, page);
    case CloseClick => CloseClickedInv(s, page);
    case PauseClick(hit) => PauseClickedInv(s, hit, page);
    case TabClick(tab) => TabSwitchedInv(s, tab, page);
    case HideTimer(setWhilePaused) => HideTimerFiredInv(s, setWhilePaused, page);
  }

  /** Every state reachable from injection by any sequence of events keeps the invariant; in particular a pin is always a pause. */
  lemma {:induction false} ReachableInv(evs: seq<Event>, page: Page)
    ensures Inv(Run(Initial(page), evs, page), page)
  {
    if evs == [] {
      InitialInv(page);
    } else {
      ReachableInv(evs[..|evs| - 1], page);
      StepInv(Run(Initial(page), evs[..|evs| - 1], page), evs[|evs| - 1], page);
    }
  }

  // ----- the object -----

  /** The content script's captured variables, with the parts of the DOM they drive. */
  class Inspector {
    var isPaused: bool
    var isPinned: bool
    var currentElement: Option<Element>
    var activeTab: Tab
    var hasLastMouse: bool
    var popupShown: bool
    var overlayShown: bool
    var buttons: Buttons
    var rawCss: Option<string>
    const page: Page

    function Current(): State
      reads this
    {
      State(isPaused, isPinned, currentElement, activeTab, hasLastMouse, popupShown, overlayShown, buttons, rawCss)
    }

    predicate Valid()
      reads this
    {
      Inv(Current(), page)
    }

    /** Injection: the initial variables, then `createTabs`, `updateButtonStates` and `renderCurrentView`. */
    constructor(page: Page)
      requires page.computedStyleAvailable
      ensures this.page == page && Current() == Initial(page) && Valid()
    {
      isPaused, isPinned := false, false;
      currentElement, activeTab := None, StylesTab;
      hasLastMouse, popupShown, overlayShown := false, false, false;
      buttons, rawCss := ButtonsFor(false, false), None;
      this.page := page;
      new;
      UpdateButtonStates();
      RenderCurrentView();
      InitialInv(page);
    }

    method RenderCurrentView()
      requires page.computedStyleAvailable
      modifies this
      ensures Current() == Rendered(old(Current()), page)
    {
      if currentElement.None? && activeTab != SourcesTab {
        rawCss := None;
        return;
      }
      var data := GetInspectedElementData(activeTab, currentElement, page);
      rawCss := Some(data.rawCssToCopy);
    }

    method UpdateButtonStates()
      modifies this
      ensures Current() == ButtonsUpdated(old(Current()))
    {
      if isPinned {
        buttons := Buttons("Unpin", UnpinButtonBg, "white", true, true);
      } else {
        buttons := Buttons(if isPaused then "Resume" else "Pause", if isPaused then BtnToggleBg else BtnPauseBg,
          if isPaused then "black" else "white", false, false);
      }
    }

    method HandleMouseMove(hit: Option<Element>)
      requires page.computedStyleAvailable && Settled(Current(), page)
      modifies this
      ensures Current() == MouseMoved(old(Current()), hit, page)
      ensures Settled(Current(), page)
    {
      MouseMovedInv(Current(), hit, page);
      hasLastMouse := true;
      if isPinned || isPaused {
        return;
      }
      var element := hit;
      if element.Some? && element.value.id !in InspectorIds && !element.value.inPopup && !element.value.inControlBar {
        currentElement := element;
        RenderCurrentView();
        overlayShown := true;
        popupShown := true;
      }
    }

    method HandleKeyDown(code: string, targetTag: string, targetEditable: bool, hit: Option<Element>)
      requires page.computedStyleAvailable && Valid()
      modifies this
      ensures Current() == KeyPressed(old(Current()), code, targetTag, targetEditable, hit, page)
      ensures Valid()
    {
      KeyPressedInv(Current(), code, targetTag, targetEditable, hit, page);
      if targetTag == "INPUT" || targetTag == "TEXTAREA" || targetEditable {
        return;
      }
      if code == "Space" && (popupShown || isPinned) {
        isPinned := !isPinned;
        isPaused := isPinned;
        UpdateButtonStates();
        if isPinned {
          popupShown := true;
          overlayShown := currentElement.Some?;
          RenderCurrentView();
        } else if hasLastMouse {
          HandleMouseMove(hit);
        }
      }
    }

    method CloseClick()
      requires Valid()
      modifies this
      ensures Current() == CloseClicked(old(Current()))
      ensures Valid()
    {
      CloseClickedInv(Current(), page);
      isPinned := false;
      isPaused := false;
      popupShown := false;
      overlayShown := false;
      UpdateButtonStates();
    }

    /** The Pause/Unpin button: it unpins when pinned, and toggles the pause otherwise. */
    method PauseClick(hit: Option<Element>)
      requires page.computedStyleAvailable && Valid()
      modifies this
      ensures Current() == PauseClicked(old(Current()), hit, page)
      ensures Valid()
    {
      PauseClickedInv(Current(), hit, page);
      if isPinned {
        Unpin(hit);
      } else {
        TogglePause(hit);
      }
    }

    /** The button while pinned: unpin and unpause, then replay the last mouse move or hide. */
    method Unpin(hit: Option<Element>)
      requires page.computedStyleAvailable && Valid() && isPinned
      modifies this
      ensures Current() == PauseClicked(old(Current()), hit, page)
    {
      isPinned := false;
      isPaused := false;
      if hasLastMouse {
        HandleMouseMove(hit);
      } else {
        popupShown := false;
        overlayShown := false;
      }
      UpdateButtonStates();
    }

    /** The button while not pinned: toggle the pause; resuming replays the last mouse move. */
    method TogglePause(hit: Option<Element>)
      requires page.computedStyleAvailable && Valid() && !isPinned
      modifies this
      ensures Current() == PauseClicked(old(Current()), hit, page)
    {
      isPaused := !isPaused;
      if !isPaused && currentElement.Some? && hasLastMouse {
        HandleMouseMove(hit);
        popupShown := true;
        overlayShown := true;
      } else if isPaused {
        overlayShown := false;
      }
      UpdateButtonStates();
    }

    method SwitchTab(tab: Tab)
      requires page.computedStyleAvailable && Valid()
      modifies this
      ensures Current() == TabSwitched(old(Current()), tab, page)
      ensures Valid()
    {
      TabSwitchedInv(Current(), tab, page);
      activeTab := tab;
      RenderCurrentView();
    }

    method HideTimeout(setWhilePaused: bool)
      requires Valid()
      modifies this
      ensures Current() == HideTimerFired(old(Current()), setWhilePaused)
      ensures Valid()
    {
      HideTimerFiredInv(Current(), setWhilePaused, page);
      if setWhilePaused {
        if isPaused && !isPinned {
          overlayShown := false;
          popupShown := false;
        }
      } else if !isPinned {
        overlayShown := false;
        popupShown := false;
      }
    }

    /** A click on the popup: the text handed to the clipboard, if any. */
    method PopupClick(onTabsOrClose: bool) returns (copied: Option<string>)
      requires Valid()
      ensures copied == Copied(Current(), onTabsOrClose)
      ensures !onTabsOrClose && (currentElement.Some? || activeTab == SourcesTab) ==>
        copied == Some(InspectedElementData(activeTab, currentElement, page).rawCssToCopy)
    {
      CopiedIsCurrentText(Current(), page);
      if onTabsOrClose {
        return None;
      }
      var cssText := rawCss;
      if cssText.Some? && cssText.value != "" {
        copied := cssText;
      } else {
        copied := None;
      }
    }
  }
}
