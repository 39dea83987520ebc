/** The navigation controller: an object holding the slides and the two
    progress fields, whose actions retag the slides in place and whose
    queries scan them. The address bar is not part of the object: `next`,
    `jump` and `init` return the fragment they would write, and a fragment
    change reaches the controller as a call to `HandleHashChange` with the
    new URL. */
module Navigation {
  import opened Wrappers
  import opened Hash
  import opened SlideModel

  /** The id `handleHashChange` navigates to for a new URL: the id in its
      fragment, or the first slide's id when the fragment carries none
      (nothing when there is no slide, where the source throws). */
  function ResolveId(url: string, s: seq<Slide>): (r: Option<string>)
    ensures r.None? <==> FragmentId(url) == "" && |s| == 0
    ensures FragmentId(url) != "" ==> r == Some(FragmentId(url))
    ensures FragmentId(url) == "" && |s| > 0 ==> r == Some(s[0].id)
  {
    var id := FragmentId(url);
    if id != "" then Some(id)
    else if |s| > 0 then Some(s[0].id)
    else None
  }

  class NavigationData {
    var slides: seq<Slide>
    var stepsCompleted: Option<int>
    var currentSlideIndex: int

    /** The object's state as a value. */
    function State(): Nav
      reads this
    {
      Nav(slides, stepsCompleted, currentSlideIndex)
    }

    /** A controller over the given slides, before any navigation. */
    constructor (initial: seq<Slide>)
      ensures State() == Nav(initial, None, 0)
    {
      slides := initial;
      stepsCompleted := None;
      currentSlideIndex := 0;
    }

    /** The index of the slide `nextSlide` returns. */
    method NextSlide() returns (r: Option<nat>)
      ensures r == NextTarget(slides)
    {
      var i := 0;
      while i < |slides|
        invariant 0 <= i <= |slides|
        invariant forall j :: 0 <= j < i ==> !slides[j].current
      {
        if slides[i].current {
          assert FirstCurrentAt(slides, i);
          if i == |slides| - 1 {
            return None;
          } else {
            return Some(i + 1);
          }
        }
        i := i + 1;
      }
      r := if |slides| == 0 then None else Some(0);
    }

    /** The index of the slide `firstIncompleteSlide` returns. */
    method FirstIncompleteSlide() returns (r: Option<nat>)
      ensures r == FirstIncomplete(slides)
    {
      var i := 0;
      while i < |slides|
        invariant 0 <= i <= |slides|
        invariant forall j :: 0 <= j < i ==> !slides[j].incomplete
      {
        if slides[i].incomplete {
          return Some(i);
        }
        i := i + 1;
      }
      r := None;
    }

    /** The slide `jump` targets: the first incomplete one. */
    method JumpSlide() returns (r: Option<nat>)
      ensures r == FirstIncomplete(slides)
    {
      r := FirstIncompleteSlide();
    }

    /** Jumping is never offered: the feature is unfinished. */
    function CanJump(): (r: bool)
      ensures !r
    {
      false
    }

    /** Records the position of the slide at `target` and the number of
        section beginnings up to and including it, minus one. */
    method ReflectProgress(target: nat)
      modifies this
      ensures State() == Reflect(old(State()), target)
    {
      var sectionBeginningsSeen := 0;
      var slidesSeen := 0;
      var i := 0;
      while i < |slides|
        invariant 0 <= i <= |slides| && i <= target
        invariant slidesSeen == i
        invariant sectionBeginningsSeen == SectionsBefore(slides, i)
      {
        if slides[i].beginsSection {
          sectionBeginningsSeen := sectionBeginningsSeen + 1;
        }
        if target == i {
          break;
        }
        slidesSeen := slidesSeen + 1;
        i := i + 1;
      }
      stepsCompleted := Some(sectionBeginningsSeen - 1);
      currentSlideIndex := slidesSeen;
    }

    /** Marks every slide matching `id` current and every other one not
        current, reflecting progress for each matching slide in turn. */
    method GoToSlide(id: string)
      modifies this
      ensures State() == GoTo(old(State()), id)
    {
      ghost var start := State();
      var i := 0;
      while i < |slides|
        invariant |slides| == |start.slides|
        invariant 0 <= i <= |slides|
        invariant State() == Scan(start, id, i)
      {
        var slide := slides[i];
        ghost var next := Scan(start, id, i).(slides := RetagUpTo(start.slides, id, i + 1));
        ScanStep(start, id, i);
        RetagStep(start.slides, id, i);
        assert slide == start.slides[i];
        if slide.id == id || id == DebugId {
          slides := slides[i := slide.(current := true)];
          assert State() == next;
          ReflectProgress(i);
        } else {
          slides := slides[i := slide.(current := false)];
          assert State() == next;
        }
        i := i + 1;
      }
    }

    /** Navigates to the slide named by the new URL's fragment, or to the
        first slide when the fragment names none. Returns false, changing
        nothing, where the source throws: no id and no slide to fall back
        to. */
    method HandleHashChange(newURL: string) returns (handled: bool)
      modifies this
      ensures handled == ResolveId(newURL, old(slides)).Some?
      ensures handled ==> State() == GoTo(old(State()), ResolveId(newURL, old(slides)).value)
      ensures !handled ==> State() == old(State())
    {
      var newId := FragmentId(newURL);
      if newId == "" {
        if |slides| == 0 {
          return false;
        }
        newId := slides[0].id;
      }
      GoToSlide(newId);
      handled := true;
    }

    /** The fragment `next` writes: `#/` and the id of the next slide;
        nothing where the source throws, there being no next slide. */
    method Next() returns (hash: Option<string>)
      ensures hash.None? <==> NextTarget(slides).None?
      ensures hash.Some? ==> hash.value == SlideHash(slides[NextTarget(slides).value].id)
    {
      var target := NextSlide();
      if target.None? {
        return None;
      }
      hash := Some(SlideHash(slides[target.value].id));
    }

    /** The fragment `jump` writes: `#/` and the id of the first incomplete
        slide; nothing where the source throws, no slide being incomplete. */
    method Jump() returns (hash: Option<string>)
      ensures hash.None? <==> FirstIncomplete(slides).None?
      ensures hash.Some? ==> hash.value == SlideHash(slides[FirstIncomplete(slides).value].id)
    {
      var target := JumpSlide();
      if target.None? {
        return None;
      }
      hash := Some(SlideHash(slides[target.value].id));
    }
  }

  /** A slide id the address bar can carry unambiguously. */
  predicate AddressableId(id: string)
  {
    id != "" && '#' !in id && id != DebugId
  }

  /** Following the fragment `next` or `jump` writes: once the new URL
      reaches the hash-change handler, exactly the targeted slide is
      current, at the recorded index, with its progress. */
  lemma NavigateToWrittenHash(nav: Nav, base: string, k: nat)
    requires '#' !in base && k < |nav.slides|
    requires UniqueAt(nav.slides, k) && AddressableId(nav.slides[k].id)
    ensures ResolveId(base + SlideHash(nav.slides[k].id), nav.slides) == Some(nav.slides[k].id)
    ensures var after := GoTo(nav, nav.slides[k].id);
      && (forall i :: 0 <= i < |after.slides| ==> (after.slides[i].current <==> i == k))
      && after.currentSlideIndex == k
      && after.stepsCompleted == Some(SectionsBefore(nav.slides, k + 1) - 1)
  {
    FragmentIdOfSlideHash(base, nav.slides[k].id);
    GoToSelects(nav, k);
  }

  /** After `init` the hash-change handler resolves to the first slide,
      whatever the fragment was before. */
  lemma InitSelectsFirstSlide(nav: Nav, base: string, hash: string)
    requires '#' !in base && |nav.slides| > 0
    ensures ResolveId(base + InitHash(hash), nav.slides) == Some(nav.slides[0].id)
  {
    InitHashIsRoot(base, hash);
  }

  /** The state `next` leads to once its fragment reaches the hash-change
      handler, on a page at `base`; nothing when `next` has no target. */
  function AfterNext(nav: Nav, base: string): Option<Nav>
  {
    match NextTarget(nav.slides)
    case None => None
    case Some(k) =>
      match ResolveId(base + SlideHash(nav.slides[k].id), nav.slides)
      case None => None
      case Some(id) => Some(GoTo(nav, id))
  }

  /** The state `init` leads to once its fragment reaches the handler. */
  function AfterInit(nav: Nav, base: string, hash: string): Option<Nav>
  {
    match ResolveId(base + InitHash(hash), nav.slides)
    case None => None
    case Some(id) => Some(GoTo(nav, id))
  }

  /** `next` from slide `k`, once its fragment reaches the hash-change
      handler, leads to the state that navigating straight to slide `k + 1`
      gives. */
  lemma NextStep(nav: Nav, base: string, k: nat)
    requires k + 1 < |nav.slides|
    requires UniqueAt(nav.slides, k) && AddressableId(nav.slides[k].id)
    requires AddressableId(nav.slides[k + 1].id)
    requires '#' !in base
    ensures AfterNext(GoTo(nav, nav.slides[k].id), base) == Some(GoTo(nav, nav.slides[k + 1].id))
  {
    var here := GoTo(nav, nav.slides[k].id);
    var id := nav.slides[k + 1].id;
    GoToSelects(nav, k);
    GoToRetags(nav, nav.slides[k].id);
    assert here.slides[k + 1].id == id;
    assert NextTarget(here.slides) == Some(k + 1);
    FragmentIdOfSlideHash(base, id);
    GoToForgets(nav, here, id, k + 1);
  }

  /** The walk-through of a four-slide questionnaire whose first and third
      slides begin sections: `init` makes the first slide the only current
      one, with progress 0, and each `next` makes the following slide the
      only current one (progress 0, 1, 1) until the last slide, after which
      `next` has no target. */
  lemma FourSlideWalk(a: Slide, b: Slide, c: Slide, d: Slide, base: string, hash: string)
    requires a.beginsSection && !b.beginsSection && c.beginsSection && !d.beginsSection
    requires UniqueIds([a, b, c, d])
    requires AddressableId(a.id) && AddressableId(b.id) && AddressableId(c.id) && AddressableId(d.id)
    requires '#' !in base
    ensures var n1 := AfterInit(Nav([a, b, c, d], None, 0), base, hash);
      && n1.Some? && |n1.value.slides| == 4
      && (forall i :: 0 <= i < 4 ==> (n1.value.slides[i].current <==> i == 0))
      && n1.value.currentSlideIndex == 0 && n1.value.stepsCompleted == Some(0)
      && var n2 := AfterNext(n1.value, base);
      && n2.Some? && |n2.value.slides| == 4
      && (forall i :: 0 <= i < 4 ==> (n2.value.slides[i].current <==> i == 1))
      && n2.value.currentSlideIndex == 1 && n2.value.stepsCompleted == Some(0)
      && var n3 := AfterNext(n2.value, base);
      && n3.Some? && |n3.value.slides| == 4
      && (forall i :: 0 <= i < 4 ==> (n3.value.slides[i].current <==> i == 2))
      && n3.value.currentSlideIndex == 2 && n3.value.stepsCompleted == Some(1)
      && var n4 := AfterNext(n3.value, base);
      && n4.Some? && |n4.value.slides| == 4
      && (forall i :: 0 <= i < 4 ==> (n4.value.slides[i].current <==> i == 3))
      && n4.value.currentSlideIndex == 3 && n4.value.stepsCompleted == Some(1)
      && AfterNext(n4.value, base).None?
  {
    var s := [a, b, c, d];
    var n0 := Nav(s, None, 0);
    assert SectionsBefore(s, 1) == 1;
    assert SectionsBefore(s, 2) == 1;
    assert SectionsBefore(s, 3) == 2;
    assert SectionsBefore(s, 4) == 2;
    UniqueIdsAt(s, 0);
    UniqueIdsAt(s, 1);
    UniqueIdsAt(s, 2);
    UniqueIdsAt(s, 3);
    InitSelectsFirstSlide(n0, base, hash);
    assert AfterInit(n0, base, hash) == Some(GoTo(n0, a.id));
    GoToSelects(n0, 0);
    NextStep(n0, base, 0);
    GoToSelects(n0, 1);
    NextStep(n0, base, 1);
    GoToSelects(n0, 2);
    NextStep(n0, base, 2);
    GoToSelects(n0, 3);
    assert NextTarget(GoTo(n0, d.id).slides).None?;
  }
}
