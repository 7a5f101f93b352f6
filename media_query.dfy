/**
 * The viewport hooks: whether the viewport is at least a breakpoint wide, the
 * current breakpoint chosen by priority from the widest down, and the mobile
 * and desktop flags. The media query's answer is abstracted to the viewport
 * width in CSS pixels; `None` stands for rendering on the server, where every
 * query answers false.
 */
module MediaQuery {
  import opened Js

  /** The keys of `BREAKPOINTS`; `Xxl` is `2xl`. */
  datatype Breakpoint = Sm | Md | Lg | Xl | Xxl

  /** `BREAKPOINTS`, in pixels. */
  function MinWidth(b: Breakpoint): nat {
    match b
    case Sm => 640
    case Md => 768
    case Lg => 1024
    case Xl => 1280
    case Xxl => 1536
  }

  /** `useBreakpoint`: the query `(min-width: <MinWidth(b)>px)`; false on the server. */
  predicate UseBreakpoint(b: Breakpoint, viewport: Option<int>) {
    viewport.Some? && viewport.value >= MinWidth(b)
  }

  /** `useCurrentBreakpoint`: the first breakpoint that matches, tried from
      `2xl` down to `sm`, or none. */
  function CurrentBreakpoint(viewport: Option<int>): Option<Breakpoint> {
    if UseBreakpoint(Xxl, viewport) then Some(Xxl)
    else if UseBreakpoint(Xl, viewport) then Some(Xl)
    else if UseBreakpoint(Lg, viewport) then Some(Lg)
    else if UseBreakpoint(Md, viewport) then Some(Md)
    else if UseBreakpoint(Sm, viewport) then Some(Sm)
    else None
  }

  /** `useIsMobile`. */
  predicate IsMobile(viewport: Option<int>) {
    !UseBreakpoint(Md, viewport)
  }

  /** `useIsDesktop`. */
  predicate IsDesktop(viewport: Option<int>) {
    UseBreakpoint(Lg, viewport)
  }

  /** Wider breakpoints have strictly larger minimum widths. */
  lemma MinWidthsAscend()
    ensures MinWidth(Sm) < MinWidth(Md) < MinWidth(Lg) < MinWidth(Xl) < MinWidth(Xxl)
    ensures forall a, b :: MinWidth(a) == MinWidth(b) ==> a == b
  {
  }

  /** Because the widths ascend, the priority order picks the widest
      breakpoint the viewport reaches; there is none exactly when the viewport
      is narrower than 640 pixels or unknown. */
  lemma CurrentBreakpointMeans(viewport: Option<int>)
    ensures CurrentBreakpoint(viewport).None? <==> viewport.None? || viewport.value < 640
    ensures CurrentBreakpoint(viewport).Some? ==> UseBreakpoint(CurrentBreakpoint(viewport).value, viewport)
    ensures CurrentBreakpoint(viewport).Some? ==>
      forall b :: UseBreakpoint(b, viewport) ==> MinWidth(b) <= MinWidth(CurrentBreakpoint(viewport).value)
  {
  }

  /** A wider viewport never has a narrower current breakpoint. */
  lemma CurrentBreakpointMonotone(w1: int, w2: int)
    requires w1 <= w2
    ensures CurrentBreakpoint(Some(w1)).Some? ==>
      CurrentBreakpoint(Some(w2)).Some? &&
      MinWidth(CurrentBreakpoint(Some(w1)).value) <= MinWidth(CurrentBreakpoint(Some(w2)).value)
  {
    CurrentBreakpointMeans(Some(w1));
    CurrentBreakpointMeans(Some(w2));
  }

  /** Mobile means narrower than 768 pixels, desktop at least 1024; the two
      never hold together, and the flags agree with the current breakpoint. */
  lemma MobileDesktopMeans(viewport: Option<int>)
    ensures IsMobile(viewport) <==> viewport.None? || viewport.value < 768
    ensures IsDesktop(viewport) <==> viewport.Some? && viewport.value >= 1024
    ensures !(IsMobile(viewport) && IsDesktop(viewport))
    ensures IsMobile(viewport) <==> CurrentBreakpoint(viewport) in {None, Some(Sm)}
    ensures IsDesktop(viewport) <==> CurrentBreakpoint(viewport) in {Some(Lg), Some(Xl), Some(Xxl)}
  {
  }

  /** On the server every query is false: no breakpoint, mobile, not desktop. */
  lemma ServerSnapshot()
    ensures CurrentBreakpoint(None) == None
    ensures IsMobile(None) && !IsDesktop(None)
    ensures forall b :: !UseBreakpoint(b, None)
  {
  }
}
