/**
 * The mobile navigation panel: the Escape rule, the focus trap that keeps Tab
 * and Shift+Tab inside the open panel, and what the panel renders: nothing
 * while closed, otherwise the highlighted links and the call-to-action buttons,
 * animated in one continuous order.
 *
 * The focusable elements of the panel are abstracted to their positions
 * `0 .. count - 1` in document order; the focused element is one of them or
 * lies outside the panel.
 */
module MobileNav {
  import opened Js
  import opened Navigation

  /** `handleEscape`: Escape asks the owner to close the menu, and only while it is open. */
  predicate EscapeCallsClose(key: string, isOpen: bool) {
    key == "Escape" && isOpen
  }

  /** Whether the focus trap takes over a key press: Tab on the last focusable
      element, or Shift+Tab on the first, while the panel is open. */
  predicate TrapWraps(isOpen: bool, count: nat, active: Option<nat>, key: string, shiftKey: bool) {
    isOpen && key == "Tab" && count > 0 && active == Some(if shiftKey then 0 else count - 1)
  }

  /** Where a wrap sends focus: Shift+Tab to the last element, Tab to the first. */
  function WrapTarget(count: nat, shiftKey: bool): nat
    requires count > 0
  {
    if shiftKey then count - 1 else 0
  }

  /** The focus within the panel, as the keyboard handler sees it. */
  class MenuFocus {
    /** The `isOpen` prop. */
    var isOpen: bool
    /** How many focusable elements the panel holds. */
    var count: nat
    /** The position of the focused element among them; `None` when focus is elsewhere. */
    var active: Option<nat>

    predicate Valid()
      reads this
    {
      active.Some? ==> active.value < count
    }

    constructor (isOpen: bool, count: nat, active: Option<nat>)
      requires active.Some? ==> active.value < count
      ensures Valid()
      ensures this.isOpen == isOpen && this.count == count && this.active == active
    {
      this.isOpen := isOpen;
      this.count := count;
      this.active := active;
    }

    /** `handleKeyDown`: while the panel is open, Tab on the last element moves
        focus to the first and Shift+Tab on the first moves it to the last, each
        time preventing the browser's own move; every other key press is left
        alone. Reports whether the default was prevented. */
    method HandleKeyDown(key: string, shiftKey: bool) returns (prevented: bool)
      requires Valid()
      modifies this
      ensures Valid()
      ensures isOpen == old(isOpen) && count == old(count)
      ensures prevented == TrapWraps(old(isOpen), old(count), old(active), key, shiftKey)
      ensures active == if prevented then Some(WrapTarget(count, shiftKey)) else old(active)
    {
      prevented := false;
      if !isOpen {
        return;
      }
      var first: Option<nat> := if count > 0 then Some(0) else None;
      var last: Option<nat> := if count > 0 then Some(count - 1) else None;
      if key == "Tab" {
        if shiftKey {
          if active.Some? && active == first {
            prevented := true;
            active := last;
          }
        } else if active.Some? && active == last {
          prevented := true;
          active := first;
        }
      }
    }
  }

  /** The browser's own move for a Tab press that is not prevented: the next
      element in document order, or with Shift the previous one. */
  function DefaultMove(i: nat, shiftKey: bool): int {
    if shiftKey then i - 1 else i + 1
  }

  /** Where one Tab press takes focus from element `i` of the open panel: the
      trap's wrap if it takes over, the browser's move otherwise. */
  function TabStep(count: nat, i: nat, shiftKey: bool): int
    requires i < count
  {
    if TrapWraps(true, count, Some(i), "Tab", shiftKey) then WrapTarget(count, shiftKey)
    else DefaultMove(i, shiftKey)
  }

  /** The trap closes the panel's elements into a cycle: focus never leaves the
      panel, Tab goes to the next element and Shift+Tab to the previous one,
      counting modulo the number of elements. */
  lemma TabStepCycles(count: nat, i: nat, shiftKey: bool)
    requires i < count
    ensures 0 <= TabStep(count, i, shiftKey) < count
    ensures !shiftKey ==> TabStep(count, i, shiftKey) == (i + 1) % count
    ensures shiftKey ==> TabStep(count, i, shiftKey) == (i + count - 1) % count
  {
    if i + 1 == count {
      assert (i + 1) % count == 0;
    } else {
      assert (i + 1) % count == i + 1;
    }
    if i == 0 {
      assert (i + count - 1) % count == count - 1;
    } else {
      assert (i + count - 1) % count == i - 1;
    }
  }

  /** Shift+Tab undoes Tab and Tab undoes Shift+Tab, wraps included. */
  lemma ShiftTabUndoesTab(count: nat, i: nat)
    requires i < count
    ensures 0 <= TabStep(count, i, false) < count && 0 <= TabStep(count, i, true) < count
    ensures TabStep(count, TabStep(count, i, false), true) == i
    ensures TabStep(count, TabStep(count, i, true), false) == i
  {
    TabStepCycles(count, i, false);
    TabStepCycles(count, i, true);
  }

  /** Where focus is after `k` Tab presses from element `i` of the open panel. */
  function Tabs(count: nat, i: nat, k: nat): (r: nat)
    requires i < count
    ensures r < count
    decreases k
  {
    if k == 0 then i
    else
      TabStepCycles(count, i, false);
      Tabs(count, TabStep(count, i, false), k - 1)
  }

  /** Short of the last element, each Tab press moves one element on. */
  lemma {:induction false} TabsForward(count: nat, i: nat, k: nat)
    requires i + k < count
    ensures Tabs(count, i, k) == i + k
    decreases k
  {
    if k > 0 {
      TabsForward(count, i + 1, k - 1);
    }
  }

  /** Pressing Tab `a` times and then `b` times is pressing it `a + b` times. */
  lemma {:induction false} TabsAppend(count: nat, i: nat, a: nat, b: nat)
    requires i < count
    ensures Tabs(count, i, a + b) == Tabs(count, Tabs(count, i, a), b)
    decreases a
  {
    if a > 0 {
      TabStepCycles(count, i, false);
      TabsAppend(count, TabStep(count, i, false), a - 1, b);
    }
  }

  /** `count` Tab presses visit every element of the panel and bring focus
      back to where it started: from element `i`, the presses reach `i + 1`,
      ..., the last element, then wrap to the first and climb back to `i`. */
  lemma TabsGoRound(count: nat, i: nat)
    requires i < count
    ensures Tabs(count, i, count) == i
    ensures forall k :: 0 <= k < count - i ==> Tabs(count, i, k) == i + k
    ensures Tabs(count, i, count - i) == 0
  {
    forall k | 0 <= k < count - i ensures Tabs(count, i, k) == i + k {
      TabsForward(count, i, k);
    }
    TabsForward(count, i, count - 1 - i);
    TabsAppend(count, i, count - 1 - i, 1);
    TabsForward(count, 0, i);
    TabsAppend(count, i, count - i, i);
  }

  /** A rendered navigation link; `animationIndex` is its `custom` stagger index. */
  datatype LinkView = LinkView(text: string, href: string, active: bool, animationIndex: nat)

  /** A rendered call-to-action button. */
  datatype CtaView = CtaView(text: string, anchor: Anchor, animationIndex: nat)

  datatype Panel = Panel(links: seq<LinkView>, ctas: seq<CtaView>)

  function LinkViews(navItems: seq<NavItem>, currentPath: string): seq<LinkView> {
    seq(|navItems|, i requires 0 <= i < |navItems| =>
      LinkView(navItems[i].text, navItems[i].href, IsActiveRoute(navItems[i].href, currentPath), i))
  }

  /** The buttons animate after the `first` navigation links. */
  function CtaViews(first: nat, ctaButtons: seq<CtaButton>): seq<CtaView> {
    seq(|ctaButtons|, j requires 0 <= j < |ctaButtons| =>
      CtaView(ctaButtons[j].text, CtaAnchor(ctaButtons[j], Outline), first + j))
  }

  /** `MobileNav`: the panel, or nothing at all while the menu is closed. */
  function Render(isOpen: bool, navItems: seq<NavItem>, ctaButtons: seq<CtaButton>, currentPath: string): Option<Panel> {
    if isOpen then Some(Panel(LinkViews(navItems, currentPath), CtaViews(|navItems|, ctaButtons)))
    else None
  }

  /** The stagger indices of the panel's items, links first. */
  function AnimationOrder(p: Panel): seq<nat> {
    seq(|p.links|, i requires 0 <= i < |p.links| => p.links[i].animationIndex)
    + seq(|p.ctas|, j requires 0 <= j < |p.ctas| => p.ctas[j].animationIndex)
  }

  /** Nothing renders while closed. Open, the panel shows one link per item,
      highlighted by the route rule, and one outlined button per call to action;
      the stagger indices run 0, 1, 2, ... through the links and on through the
      buttons, so every item has its own index. */
  lemma RenderMeans(isOpen: bool, navItems: seq<NavItem>, ctaButtons: seq<CtaButton>, currentPath: string)
    ensures Render(isOpen, navItems, ctaButtons, currentPath).None? <==> !isOpen
    ensures isOpen ==>
      var p := Render(isOpen, navItems, ctaButtons, currentPath).value;
      && |p.links| == |navItems| && |p.ctas| == |ctaButtons|
      && (forall i :: 0 <= i < |navItems| ==>
            p.links[i].href == navItems[i].href && (p.links[i].active <==> IsActiveRoute(navItems[i].href, currentPath)))
      && (forall j :: 0 <= j < |ctaButtons| ==> p.ctas[j].anchor == CtaAnchor(ctaButtons[j], Outline))
      && |AnimationOrder(p)| == |navItems| + |ctaButtons|
      && (forall k :: 0 <= k < |AnimationOrder(p)| ==> AnimationOrder(p)[k] == k)
  {
    if isOpen {
      var p := Render(isOpen, navItems, ctaButtons, currentPath).value;
      var order := AnimationOrder(p);
      forall k | 0 <= k < |order| ensures order[k] == k {
        if k >= |p.links| {
          assert order[k] == p.ctas[k - |p.links|].animationIndex;
        }
      }
    }
  }
}
