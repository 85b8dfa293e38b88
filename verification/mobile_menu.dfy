/** The optional mobile menu: a `.hamburger` button that opens and closes the
    navigation panel, mirrored on the button's `aria-expanded`. */
module MobileMenu {
  import opened Wrappers
  import opened Dom

  const OpenAttr := "data-open"

  /** The button and the panel, each possibly missing from the page. */
  datatype Menu = Menu(button: Option<Element>, panel: Option<Element>)

  /** A click on the button, or a click inside the panel whose target is
      or lies inside a link (`onLink`) or not. */
  datatype Click = ButtonClick | PanelClick(onLink: bool)

  /** `String(b)`. */
  function BoolText(b: bool): string {
    if b then "true" else "false"
  }

  predicate IsOpen(panel: Element) {
    GetAttribute(panel, OpenAttr) == Some("true")
  }

  /** The handlers are installed only when both elements exist. */
  predicate Wired(m: Menu) {
    m.button.Some? && m.panel.Some?
  }

  /** Panel and button report the same state. */
  predicate Synced(m: Menu) {
    Wired(m) ==> GetAttribute(m.panel.value, OpenAttr) == GetAttribute(m.button.value, ExpandedAttr)
  }

  /** Both attributes set to `value`; nothing else touched. */
  function SetBoth(button: Element, panel: Element, value: string): Menu {
    Menu(Some(SetAttribute(button, ExpandedAttr, value)), Some(SetAttribute(panel, OpenAttr, value)))
  }

  function Handle(m: Menu, c: Click): (r: Menu)
    ensures !Wired(m) ==> r == m
    ensures Wired(r) == Wired(m)
    ensures Wired(m) && c.ButtonClick? ==>
      && (IsOpen(r.panel.value) <==> !IsOpen(m.panel.value))
      && GetAttribute(r.panel.value, OpenAttr) == Some(BoolText(IsOpen(r.panel.value)))
    ensures Wired(m) && c == PanelClick(true) ==> GetAttribute(r.panel.value, OpenAttr) == Some("false")
    ensures c == PanelClick(false) ==> r == m
    ensures Wired(m) && (c.ButtonClick? || c.onLink) ==> Synced(r)
    ensures Wired(m) ==>
      && SameExcept(m.panel.value, r.panel.value, {OpenAttr})
      && SameExcept(m.button.value, r.button.value, {ExpandedAttr})
  {
    if !Wired(m) then m
    else
      match c
      case ButtonClick =>
        var open := IsOpen(m.panel.value);
        SetBoth(m.button.value, m.panel.value, BoolText(!open))
      case PanelClick(onLink) =>
        if onLink then SetBoth(m.button.value, m.panel.value, "false") else m
  }

  /** Two button clicks restore whether the menu is open; an absent
      `data-open` comes back as "false". */
  lemma ToggleTwice(m: Menu)
    requires Wired(m)
    ensures var r := Handle(Handle(m, ButtonClick), ButtonClick);
      && (IsOpen(r.panel.value) <==> IsOpen(m.panel.value))
      && GetAttribute(r.panel.value, OpenAttr) == Some(BoolText(IsOpen(m.panel.value)))
  {
  }

  /** A link click closes the menu whatever its state was. */
  lemma LinkClickCloses(m: Menu)
    requires Wired(m)
    ensures !IsOpen(Handle(m, PanelClick(true)).panel.value)
    ensures Handle(m, PanelClick(true)) == Handle(Handle(m, ButtonClick), PanelClick(true))
  {
    var b := m.button.value;
    var p := m.panel.value;
    var v := BoolText(!IsOpen(p));
    assert b.attrs[ExpandedAttr := v][ExpandedAttr := "false"] == b.attrs[ExpandedAttr := "false"];
    assert p.attrs[OpenAttr := v][OpenAttr := "false"] == p.attrs[OpenAttr := "false"];
  }

  /** The state after the clicks, in order. */
  function Run(m: Menu, clicks: seq<Click>): Menu
    decreases |clicks|
  {
    if clicks == [] then m else Run(Handle(m, clicks[0]), clicks[1..])
  }

  /** Once panel and button agree they keep agreeing, and any click other
      than a plain click inside the panel makes them agree. */
  lemma {:induction false} RunSynced(m: Menu, clicks: seq<Click>)
    requires Synced(m) || (clicks != [] && (clicks[0].ButtonClick? || clicks[0].onLink))
    ensures Synced(Run(m, clicks))
    ensures Wired(Run(m, clicks)) == Wired(m)
    decreases |clicks|
  {
    if clicks != [] {
      RunSynced(Handle(m, clicks[0]), clicks[1..]);
    }
  }
}
