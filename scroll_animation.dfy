/**
 * The visibility flag of `useScrollAnimation` and `useInView`. The
 * intersection observer is abstracted to the batches of entries it delivers,
 * each entry reduced to its `isIntersecting` flag, and the animation library
 * to the list of tweens the hook issues.
 */
module ScrollAnimation {
  import opened Js

  /** The hook options; an absent option takes its default. */
  datatype Options = Options(threshold: Option<real>, triggerOnce: Option<bool>, rootMargin: Option<string>)

  datatype Settings = Settings(threshold: real, triggerOnce: bool, rootMargin: string)

  const DefaultThreshold: real := 0.1
  const DefaultTriggerOnce: bool := true
  const DefaultRootMargin: string := "0px"

  /** The destructuring with defaults at the top of both hooks. */
  function Resolve(o: Options): Settings {
    Settings(
      if o.threshold.Some? then o.threshold.value else DefaultThreshold,
      if o.triggerOnce.Some? then o.triggerOnce.value else DefaultTriggerOnce,
      if o.rootMargin.Some? then o.rootMargin.value else DefaultRootMargin)
  }

  /** A given option is kept and a missing one defaults: threshold 0.1,
      trigger once, root margin "0px". */
  lemma ResolveMeans(o: Options)
    ensures o.triggerOnce.None? ==> Resolve(o).triggerOnce
    ensures o.triggerOnce.Some? ==> Resolve(o).triggerOnce == o.triggerOnce.value
    ensures o.threshold.None? ==> Resolve(o).threshold == 0.1
    ensures o.threshold.Some? ==> Resolve(o).threshold == o.threshold.value
    ensures o.rootMargin.None? ==> Resolve(o).rootMargin == "0px"
    ensures o.rootMargin.Some? ==> Resolve(o).rootMargin == o.rootMargin.value
  {
  }

  /** The tweens of the animating hook: the initial hide, the fade in, the fade out. */
  datatype Tween = SetHidden | FadeIn | FadeOut

  /** The flag after one entry: an intersecting entry shows the element; a
      non-intersecting one hides it again unless the hook triggers once. */
  function AfterEntry(visible: bool, triggerOnce: bool, isIntersecting: bool): bool {
    if isIntersecting then true
    else if !triggerOnce then false
    else visible
  }

  /** The flag after a run of entries, in delivery order. */
  function AfterEntries(visible: bool, triggerOnce: bool, entries: seq<bool>): bool {
    if entries == [] then visible
    else AfterEntry(AfterEntries(visible, triggerOnce, entries[..|entries| - 1]), triggerOnce, entries[|entries| - 1])
  }

  /** The tweens issued for a run of entries. */
  function TweensFor(triggerOnce: bool, entries: seq<bool>): seq<Tween> {
    if entries == [] then []
    else
      var last := entries[|entries| - 1];
      TweensFor(triggerOnce, entries[..|entries| - 1])
      + (if last then [FadeIn] else if !triggerOnce then [FadeOut] else [])
  }

  /** Triggering once is a latch: the element is shown exactly when it was
      shown before or some entry intersected, so once shown it stays shown. */
  lemma {:induction false} OnceLatches(visible: bool, entries: seq<bool>)
    ensures AfterEntries(visible, true, entries) == (visible || true in entries)
  {
    if entries != [] {
      var init := entries[..|entries| - 1];
      OnceLatches(visible, init);
      assert entries == init + [entries[|entries| - 1]];
    }
  }

  /** Without triggering once, the flag is the last entry's `isIntersecting`,
      whatever came before. */
  lemma RepeatFollowsLast(visible: bool, entries: seq<bool>)
    requires entries != []
    ensures AfterEntries(visible, false, entries) == entries[|entries| - 1]
  {
  }

  /** Delivering entries in one batch or in two gives the same flag. */
  lemma {:induction false} AfterEntriesAppend(visible: bool, triggerOnce: bool, a: seq<bool>, b: seq<bool>)
    ensures AfterEntries(visible, triggerOnce, a + b) == AfterEntries(AfterEntries(visible, triggerOnce, a), triggerOnce, b)
  {
    if b == [] {
      assert a + b == a;
    } else {
      AfterEntriesAppend(visible, triggerOnce, a, b[..|b| - 1]);
      assert (a + b)[..|a + b| - 1] == a + b[..|b| - 1];
    }
  }

  lemma AfterEntriesSnoc(visible: bool, triggerOnce: bool, entries: seq<bool>, e: bool)
    ensures AfterEntries(visible, triggerOnce, entries + [e]) == AfterEntry(AfterEntries(visible, triggerOnce, entries), triggerOnce, e)
  {
    assert (entries + [e])[..|entries|] == entries;
  }

  lemma TweensForSnoc(triggerOnce: bool, entries: seq<bool>, e: bool)
    ensures TweensFor(triggerOnce, entries + [e]) ==
      TweensFor(triggerOnce, entries) + (if e then [FadeIn] else if !triggerOnce then [FadeOut] else [])
  {
    assert (entries + [e])[..|entries|] == entries;
  }

  /** Once an entry has intersected, triggering once ignores everything after
      it, so no longer observing the element changes nothing about the flag. */
  lemma IgnoringLaterEntries(visible: bool, a: seq<bool>, b: seq<bool>)
    requires true in a
    ensures AfterEntries(visible, true, a + b) == AfterEntries(visible, true, a) == true
  {
    OnceLatches(visible, a);
    OnceLatches(visible, a + b);
  }

  /** The body of the observer callback: one pass over the batch in delivery
      order, starting from the flag `visible0`. It returns the final flag,
      whether the observer still watches the element afterwards, and the tweens
      issued along the way. */
  method RunEntries(visible0: bool, triggerOnce: bool, animated: bool, entries: seq<bool>)
    returns (visible: bool, watching: bool, issued: seq<Tween>)
    ensures visible == AfterEntries(visible0, triggerOnce, entries)
    ensures watching == !(triggerOnce && true in entries)
    ensures issued == if animated then TweensFor(triggerOnce, entries) else []
  {
    visible, watching, issued := visible0, true, [];
    var i := 0;
    while i < |entries|
      invariant 0 <= i <= |entries|
      invariant visible == AfterEntries(visible0, triggerOnce, entries[..i])
      invariant watching == !(triggerOnce && true in entries[..i])
      invariant issued == if animated then TweensFor(triggerOnce, entries[..i]) else []
    {
      var e := entries[i];
      assert entries[..i + 1] == entries[..i] + [e];
      AfterEntriesSnoc(visible0, triggerOnce, entries[..i], e);
      TweensForSnoc(triggerOnce, entries[..i], e);
      if e {
        visible := true;
        if animated {
          issued := issued + [FadeIn];
        }
        if triggerOnce {
          watching := false;
        }
      } else if !triggerOnce {
        visible := false;
        if animated {
          issued := issued + [FadeOut];
        }
      }
      i := i + 1;
    }
    assert entries[..i] == entries;
  }

  /** The state behind one hook instance. `animated` is whether the hook
      issues tweens: `useScrollAnimation` when the user has not asked for
      reduced motion; `useInView` never does. */
  class VisibilityObserver {
    const triggerOnce: bool
    const animated: bool
    /** `isVisible` / `isInView`. */
    var isVisible: bool
    /** Whether the observer still watches the element. */
    var observing: bool
    var tweens: seq<Tween>
    /** Every entry the observer has delivered so far. */
    ghost var seen: seq<bool>

    /** The flag is what the delivered entries make of the initial `false`, and
        a hook that triggers once stops observing at its first intersection. */
    ghost predicate Valid()
      reads this
    {
      && isVisible == AfterEntries(false, triggerOnce, seen)
      && (triggerOnce && true in seen ==> !observing)
    }

    /** The first render and its effect: the flag starts false; the element is
        observed only if it is attached, and the animating hook hides it first. */
    constructor (attached: bool, options: Options, animated: bool)
      ensures Valid()
      ensures triggerOnce == Resolve(options).triggerOnce && this.animated == animated
      ensures !isVisible && seen == [] && observing == attached
      ensures tweens == if attached && animated then [SetHidden] else []
    {
      triggerOnce := Resolve(options).triggerOnce;
      this.animated := animated;
      isVisible := false;
      seen := [];
      observing := attached;
      tweens := if attached && animated then [SetHidden] else [];
    }

    /** The observer callback on one batch of entries. Nothing arrives once the
        element is no longer observed; a batch already under way is finished. */
    method Deliver(entries: seq<bool>)
      requires Valid()
      modifies this
      ensures Valid()
      ensures !old(observing) ==>
        isVisible == old(isVisible) && !observing && tweens == old(tweens) && seen == old(seen)
      ensures old(observing) ==> seen == old(seen) + entries
      ensures old(observing) ==> isVisible == AfterEntries(old(isVisible), triggerOnce, entries)
      ensures old(observing) ==> observing == !(triggerOnce && true in entries)
      ensures old(observing) ==> tweens == old(tweens) + (if animated then TweensFor(triggerOnce, entries) else [])
    {
      if !observing {
        return;
      }
      // The state setters of one callback take effect together, after it.
      ghost var seen0 := seen;
      var visible, watching, issued := RunEntries(isVisible, triggerOnce, animated, entries);
      AfterEntriesAppend(false, triggerOnce, seen0, entries);
      isVisible, observing, tweens := visible, watching, tweens + issued;
      seen := seen0 + entries;
    }
  }
}
