/** Per-card song lists: each `.toggle-songs` button shows or hides the
    `.song-list` of its own `.album-card`, starting hidden. */
module SongToggles {
  import opened Wrappers
  import opened Dom

  const HiddenAttr := "hidden"
  const HideLabel := "Hide Songs \U{25B2}"
  const ViewLabel := "View Songs \U{25BC}"

  /** A toggle button and the song list found in its card; `None` when the
      button has no enclosing card or the card has no list. */
  datatype Card = Card(button: Element, list: Option<Element>)

  predicate IsHidden(list: Element) {
    HasAttribute(list, HiddenAttr)
  }

  /** The button's label and `aria-expanded` describe the list's state. */
  predicate LabelAgrees(c: Card) {
    c.list.Some? ==>
      && c.button.text == (if IsHidden(c.list.value) then ViewLabel else HideLabel)
      && GetAttribute(c.button, ExpandedAttr) == Some(if IsHidden(c.list.value) then "false" else "true")
  }

  /** Start-up: a found list is made hidden; one already hidden, and a
      button without a list, are left alone. */
  function Setup(c: Card): (r: Card)
    ensures r.button == c.button
    ensures r.list.Some? == c.list.Some?
    ensures r.list.Some? ==> IsHidden(r.list.value) && SameExcept(c.list.value, r.list.value, {HiddenAttr})
    ensures c.list.Some? && IsHidden(c.list.value) ==> r == c
  {
    match c.list
    case None => c
    case Some(list) =>
      if HasAttribute(list, HiddenAttr) then c
      else c.(list := Some(SetAttribute(list, HiddenAttr, "")))
  }

  /** Start-up is idempotent. */
  lemma SetupTwice(c: Card)
    ensures Setup(Setup(c)) == Setup(c)
  {
  }

  /** The click handler. A button without a list has no handler. */
  function Click(c: Card): (r: Card)
    ensures c.list.None? ==> r == c
    ensures r.list.Some? == c.list.Some?
    ensures c.list.Some? ==>
      && (IsHidden(r.list.value) <==> !IsHidden(c.list.value))
      && LabelAgrees(r)
      && SameExcept(c.list.value, r.list.value, {HiddenAttr})
      && SameExcept(c.button.(text := r.button.text), r.button, {ExpandedAttr})
  {
    match c.list
    case None => c
    case Some(list) =>
      if HasAttribute(list, HiddenAttr) then
        Card(SetAttribute(c.button.(text := HideLabel), ExpandedAttr, "true"),
             Some(RemoveAttribute(list, HiddenAttr)))
      else
        Card(SetAttribute(c.button.(text := ViewLabel), ExpandedAttr, "false"),
             Some(SetAttribute(list, HiddenAttr, "")))
  }

  /** The card after `n` clicks. */
  function Clicks(c: Card, n: nat): Card {
    if n == 0 then c else Click(Clicks(c, n - 1))
  }

  /** Each click flips the list, so its state depends only on the parity of
      the clicks; after at least one click the label agrees with it. */
  lemma {:induction false} ClicksParity(c: Card, n: nat)
    requires c.list.Some?
    ensures Clicks(c, n).list.Some?
    ensures IsHidden(Clicks(c, n).list.value) <==> (IsHidden(c.list.value) <==> n % 2 == 0)
    ensures n > 0 ==> LabelAgrees(Clicks(c, n))
  {
    if n > 0 {
      ClicksParity(c, n - 1);
    }
  }

  /** After an odd number of clicks from start-up the list is shown and the
      button offers to hide it; after a positive even number it is hidden
      and the button offers to view it. */
  lemma ClicksFromSetup(c: Card, n: nat)
    requires c.list.Some? && n > 0
    ensures var r := Clicks(Setup(c), n);
      && r.list.Some?
      && (IsHidden(r.list.value) <==> n % 2 == 0)
      && r.button.text == (if n % 2 == 1 then HideLabel else ViewLabel)
      && GetAttribute(r.button, ExpandedAttr) == Some(if n % 2 == 1 then "true" else "false")
  {
    ClicksParity(Setup(c), n);
  }

  /** The start-up never writes the label, so two clicks need not bring
      back the label the page was served with. */
  lemma EvenClicksNeedNotRestoreLabel(list: Element)
    ensures var c := Card(Element(map[], {}, "Tracklist"), Some(list));
      Clicks(Setup(c), 2).button.text == ViewLabel != c.button.text
  {
    var c := Card(Element(map[], {}, "Tracklist"), Some(list));
    var s := Setup(c);
    assert Clicks(s, 0) == s;
    assert Clicks(s, 1) == Click(s);
    assert Clicks(s, 2) == Click(Click(s));
    assert IsHidden(s.list.value);
    assert Click(Click(s)).button.text == ViewLabel;
    assert ViewLabel[0] != "Tracklist"[0];
  }

  /** A page: the `.toggle-songs` buttons in document order, the song
      lists, and for each button the position of the list found from it
      (the first `.song-list` of its `.album-card`), if any. Two buttons in
      one card find the same list. */
  datatype Page = Page(buttons: seq<Element>, lists: seq<Element>, listOf: seq<Option<nat>>)

  predicate ValidPage(p: Page) {
    && |p.listOf| == |p.buttons|
    && forall i :: 0 <= i < |p.listOf| && p.listOf[i].Some? ==> p.listOf[i].value < |p.lists|
  }

  /** Button `i` with the list it finds. */
  function CardOf(p: Page, i: nat): Card
    requires ValidPage(p) && i < |p.buttons|
  {
    Card(p.buttons[i], if p.listOf[i].Some? then Some(p.lists[p.listOf[i].value]) else None)
  }

  /** One of the first `n` buttons finds list `j`. */
  predicate FoundBefore(p: Page, j: nat, n: nat) {
    exists i :: 0 <= i < n && i < |p.listOf| && p.listOf[i] == Some(j)
  }

  predicate Found(p: Page, j: nat) {
    FoundBefore(p, j, |p.listOf|)
  }

  /** `songToggles` start-up, button by button: every list some button
      finds ends up hidden, a list already hidden is left as it was, and
      nothing else changes. */
  method SetupPage(p: Page) returns (r: Page)
    requires ValidPage(p)
    ensures ValidPage(r) && r.buttons == p.buttons && r.listOf == p.listOf && |r.lists| == |p.lists|
    ensures forall j :: 0 <= j < |p.lists| && Found(p, j) ==>
      IsHidden(r.lists[j]) && SameExcept(p.lists[j], r.lists[j], {HiddenAttr})
    ensures forall j :: 0 <= j < |p.lists| && (!Found(p, j) || IsHidden(p.lists[j])) ==> r.lists[j] == p.lists[j]
  {
    var lists := p.lists;
    var i := 0;
    while i < |p.buttons|
      invariant 0 <= i <= |p.buttons|
      invariant |lists| == |p.lists|
      invariant forall j :: 0 <= j < |p.lists| && FoundBefore(p, j, i) ==>
        IsHidden(lists[j]) && SameExcept(p.lists[j], lists[j], {HiddenAttr})
      invariant forall j :: 0 <= j < |p.lists| && (!FoundBefore(p, j, i) || IsHidden(p.lists[j])) ==> lists[j] == p.lists[j]
    {
      if p.listOf[i].Some? {
        var j := p.listOf[i].value;
        var c := Setup(Card(p.buttons[i], Some(lists[j])));
        lists := lists[j := c.list.value];
      }
      assert forall j: nat :: FoundBefore(p, j, i + 1) <==> FoundBefore(p, j, i) || p.listOf[i] == Some(j);
      i := i + 1;
    }
    r := Page(p.buttons, lists, p.listOf);
  }

  /** A click on button `i`: the list it finds flips, and that button's
      label and `aria-expanded` follow; no other button and no other list
      changes. A button that finds no list has no handler. */
  function ClickButton(p: Page, i: nat): (r: Page)
    requires ValidPage(p) && i < |p.buttons|
    ensures ValidPage(r) && r.listOf == p.listOf && |r.buttons| == |p.buttons| && |r.lists| == |p.lists|
    ensures p.listOf[i].None? ==> r == p
    ensures forall k :: 0 <= k < |p.buttons| && k != i ==> r.buttons[k] == p.buttons[k]
    ensures p.listOf[i].Some? ==>
      var j := p.listOf[i].value;
      && (IsHidden(r.lists[j]) <==> !IsHidden(p.lists[j]))
      && SameExcept(p.lists[j], r.lists[j], {HiddenAttr})
      && LabelAgrees(CardOf(r, i))
      && SameExcept(p.buttons[i].(text := r.buttons[i].text), r.buttons[i], {ExpandedAttr})
      && forall m :: 0 <= m < |p.lists| && m != j ==> r.lists[m] == p.lists[m]
  {
    match p.listOf[i]
    case None => p
    case Some(j) =>
      var c := Click(CardOf(p, i));
      Page(p.buttons[i := c.button], p.lists[j := c.list.value], p.listOf)
  }

  /** Seen from the clicked button, a page click is the card click, so the
      card lemmas above describe each button of a page. */
  lemma ClickButtonIsClick(p: Page, i: nat)
    requires ValidPage(p) && i < |p.buttons|
    ensures CardOf(ClickButton(p, i), i) == Click(CardOf(p, i))
  {
  }

  /** Two buttons that find the same list: a click on one flips the list
      the other controls but leaves the other's label alone, so a label
      that agreed with the list no longer does. */
  lemma SharedListStaleLabel(p: Page, i: nat, k: nat)
    requires ValidPage(p) && i < |p.buttons| && k < |p.buttons| && i != k
    requires p.listOf[i].Some? && p.listOf[k] == p.listOf[i]
    requires LabelAgrees(CardOf(p, k))
    ensures CardOf(ClickButton(p, i), k).list == CardOf(ClickButton(p, i), i).list
    ensures !LabelAgrees(CardOf(ClickButton(p, i), k))
  {
    var r := ClickButton(p, i);
    var j := p.listOf[i].value;
    assert r.buttons[k] == p.buttons[k];
    assert IsHidden(r.lists[j]) <==> !IsHidden(p.lists[j]);
    assert ViewLabel[0] != HideLabel[0];
  }
}
