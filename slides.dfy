/** The slide sequence the controller navigates, and the specification of
    its navigation rules as functions on values: which slide `next` and
    `jump` target, what `reflectProgress` records, and what `goToSlide`
    leaves behind. */
module SlideModel {
  import opened Wrappers

  /** One `section.slide` element: its DOM id, whether it carries the
      `current` class, and its `data-begins-section` and `data-incomplete`
      attributes. */
  datatype Slide = Slide(id: string, current: bool, beginsSection: bool, incomplete: bool)

  /** The controller's state: the slides in document order, and its two
      fields (`stepsCompleted` is `null` until the first navigation). */
  datatype Nav = Nav(slides: seq<Slide>, stepsCompleted: Option<int>, currentSlideIndex: int)

  /** The id that makes every slide match in `goToSlide`. */
  const DebugId: string := "debug"

  /** The test `goToSlide` applies to each slide. */
  predicate Matches(slide: Slide, id: string)
  {
    slide.id == id || id == DebugId
  }

  predicate IsCurrent(slide: Slide) { slide.current }

  predicate IsIncomplete(slide: Slide) { slide.incomplete }

  /** Two slide sequences that differ at most in their current flags. */
  predicate SameSlides(s: seq<Slide>, t: seq<Slide>)
  {
    && |s| == |t|
    && forall i :: 0 <= i < |s| ==>
         s[i].id == t[i].id && s[i].beginsSection == t[i].beginsSection &&
         s[i].incomplete == t[i].incomplete
  }

  /** No two slides share an id, as the DOM requires of element ids. */
  predicate UniqueIds(s: seq<Slide>)
  {
    forall i, j :: 0 <= i < j < |s| ==> s[i].id != s[j].id
  }

  /** No other slide shares the id of slide `k`. */
  predicate UniqueAt(s: seq<Slide>, k: nat)
    requires k < |s|
  {
    forall i :: 0 <= i < |s| && s[i].id == s[k].id ==> i == k
  }

  lemma UniqueIdsAt(s: seq<Slide>, k: nat)
    requires UniqueIds(s) && k < |s|
    ensures UniqueAt(s, k)
  {
  }

  // ---------------------------------------------------------------------
  // Scans

  /** The lowest index at or after `k` whose slide satisfies `p`. */
  function FirstFrom(s: seq<Slide>, p: Slide -> bool, k: nat): (r: Option<nat>)
    requires k <= |s|
    decreases |s| - k
    ensures r.Some? ==> k <= r.value < |s| && p(s[r.value])
    ensures r.Some? ==> forall j :: k <= j < r.value ==> !p(s[j])
    ensures r.None? ==> forall j :: k <= j < |s| ==> !p(s[j])
  {
    if k == |s| then None
    else if p(s[k]) then Some(k)
    else FirstFrom(s, p, k + 1)
  }

  /** The slide `nextSlide` scans for: the first one found with the
      `current` class. */
  predicate FirstCurrentAt(s: seq<Slide>, i: nat)
    requires i < |s|
  {
    s[i].current && forall j :: 0 <= j < i ==> !s[j].current
  }

  /** The index of the slide `nextSlide` returns: the one after the first
      current slide; none after the last slide; the first slide when no slide
      is current (none at all when there are no slides). */
  function NextTarget(s: seq<Slide>): (r: Option<nat>)
    ensures r.Some? ==> r.value < |s|
    ensures (forall j :: 0 <= j < |s| ==> !s[j].current) ==>
              r == (if |s| == 0 then None else Some(0))
    ensures forall i :: 0 <= i < |s| && FirstCurrentAt(s, i) ==>
              r == (if i == |s| - 1 then None else Some(i + 1))
  {
    match FirstFrom(s, IsCurrent, 0)
    case None => if |s| == 0 then None else Some(0)
    case Some(i) => if i == |s| - 1 then None else Some(i + 1)
  }

  /** The index of the slide `firstIncompleteSlide` (and `jumpSlide`)
      returns: the lowest-index incomplete slide, if any. */
  function FirstIncomplete(s: seq<Slide>): (r: Option<nat>)
    ensures r.Some? ==> r.value < |s| && s[r.value].incomplete
    ensures r.Some? ==> forall j :: 0 <= j < r.value ==> !s[j].incomplete
    ensures r.None? <==> forall j :: 0 <= j < |s| ==> !s[j].incomplete
  {
    FirstFrom(s, IsIncomplete, 0)
  }

  /** The last index below `k` whose slide matches `id`: in `goToSlide`'s
      forward scan, the last call to `reflectProgress` is for this slide. */
  function LastMatch(s: seq<Slide>, id: string, k: nat): (r: Option<nat>)
    requires k <= |s|
    ensures r.Some? ==> r.value < k && Matches(s[r.value], id)
    ensures r.Some? ==> forall j :: r.value < j < k ==> !Matches(s[j], id)
    ensures r.None? ==> forall j :: 0 <= j < k ==> !Matches(s[j], id)
  {
    if k == 0 then None
    else if Matches(s[k - 1], id) then Some(k - 1)
    else LastMatch(s, id, k - 1)
  }

  // ---------------------------------------------------------------------
  // Progress

  /** The number of slides among the first `k` that begin a section. */
  function SectionsBefore(s: seq<Slide>, k: nat): (r: nat)
    requires k <= |s|
    ensures r <= k
  {
    if k == 0 then 0
    else SectionsBefore(s, k - 1) + (if s[k - 1].beginsSection then 1 else 0)
  }

  /** The state after `reflectProgress` for the slide at `target` (an index
      past the end stands for a slide that is not in the sequence): the scan
      stops at the target, having counted it if it begins a section. */
  function Reflect(nav: Nav, target: nat): Nav
  {
    var n := |nav.slides|;
    var seen := if target < n then target else n;
    var counted := if target < n then target + 1 else n;
    nav.(stepsCompleted := Some(SectionsBefore(nav.slides, counted) - 1),
         currentSlideIndex := seen)
  }

  // ---------------------------------------------------------------------
  // goToSlide

  /** The slides after `goToSlide`'s loop has visited the first `k` of them:
      those carry the current flag exactly when they match `id`. */
  function RetagUpTo(s: seq<Slide>, id: string, k: nat): (r: seq<Slide>)
    requires k <= |s|
  {
    seq(|s|, j requires 0 <= j < |s| =>
      if j < k then s[j].(current := Matches(s[j], id)) else s[j])
  }

  /** The state after `goToSlide(id)`'s loop has visited the first `k`
      slides: the flags retagged so far, and the progress recorded for the
      last matching slide among them (unchanged when none matched). */
  function Scan(nav: Nav, id: string, k: nat): Nav
    requires k <= |nav.slides|
  {
    var tagged := RetagUpTo(nav.slides, id, k);
    match LastMatch(nav.slides, id, k)
    case None => nav.(slides := tagged)
    case Some(j) => Reflect(nav, j).(slides := tagged)
  }

  /** The state after `goToSlide(id)`. */
  function GoTo(nav: Nav, id: string): Nav
  {
    Scan(nav, id, |nav.slides|)
  }

  /** One iteration of goToSlide's loop: retag slide `k`, and reflect
      progress for it when it matches. */
  lemma ScanStep(nav: Nav, id: string, k: nat)
    requires k < |nav.slides|
    ensures var next := Scan(nav, id, k).(slides := RetagUpTo(nav.slides, id, k + 1));
      Scan(nav, id, k + 1) == if Matches(nav.slides[k], id) then Reflect(next, k) else next
  {
    var tagged := RetagUpTo(nav.slides, id, k + 1);
    SectionsBeforeSameFlags(tagged, nav.slides, k + 1);
  }

  /** Retagging slide `k` extends the retagged prefix by one. */
  lemma RetagStep(s: seq<Slide>, id: string, k: nat)
    requires k < |s|
    ensures RetagUpTo(s, id, k)[k := s[k].(current := Matches(s[k], id))] == RetagUpTo(s, id, k + 1)
  {
  }

  // ---------------------------------------------------------------------
  // Lemmas: progress

  /** Reference definition: SectionsBefore counts the set of
      section-beginning indices below `k`. */
  lemma {:induction false} SectionsBeforeCounts(s: seq<Slide>, k: nat)
    requires k <= |s|
    ensures SectionsBefore(s, k) == |set j | 0 <= j < k && s[j].beginsSection|
  {
    if k > 0 {
      SectionsBeforeCounts(s, k - 1);
      var prev := set j | 0 <= j < k - 1 && s[j].beginsSection;
      var all := set j | 0 <= j < k && s[j].beginsSection;
      if s[k - 1].beginsSection {
        assert all == prev + {k - 1};
        assert k - 1 !in prev;
      } else {
        assert all == prev;
      }
    }
  }

  /** The count depends on `beginsSection` flags only. */
  lemma {:induction false} SectionsBeforeSameFlags(s: seq<Slide>, t: seq<Slide>, k: nat)
    requires k <= |s| && k <= |t|
    requires forall j :: 0 <= j < k ==> s[j].beginsSection == t[j].beginsSection
    ensures SectionsBefore(s, k) == SectionsBefore(t, k)
  {
    if k > 0 {
      SectionsBeforeSameFlags(s, t, k - 1);
    }
  }

  lemma {:induction false} SectionsBeforeMonotone(s: seq<Slide>, j: nat, k: nat)
    requires j <= k <= |s|
    ensures SectionsBefore(s, j) <= SectionsBefore(s, k)
  {
    if j < k {
      SectionsBeforeMonotone(s, j, k - 1);
    }
  }

  /** `reflectProgress(slides[target])` records the target's index, and the
      number of section beginnings at or before it, minus one; for a slide
      not in the sequence, the length and the total number minus one. */
  lemma ReflectRecords(nav: Nav, target: nat)
    ensures Reflect(nav, target).slides == nav.slides
    ensures target < |nav.slides| ==>
      && Reflect(nav, target).currentSlideIndex == target
      && Reflect(nav, target).stepsCompleted ==
           Some(|set j | 0 <= j <= target && nav.slides[j].beginsSection| - 1)
    ensures target >= |nav.slides| ==>
      && Reflect(nav, target).currentSlideIndex == |nav.slides|
      && Reflect(nav, target).stepsCompleted ==
           Some(|set j | 0 <= j < |nav.slides| && nav.slides[j].beginsSection| - 1)
  {
    var s := nav.slides;
    if target < |s| {
      SectionsBeforeCounts(s, target + 1);
      assert (set j | 0 <= j < target + 1 && s[j].beginsSection)
          == (set j | 0 <= j <= target && s[j].beginsSection);
    } else {
      SectionsBeforeCounts(s, |s|);
    }
  }

  /** When the first slide begins a section, progress is never negative, and
      it never exceeds the number of slides passed. */
  lemma ReflectBounds(nav: Nav, target: nat)
    requires target < |nav.slides|
    ensures Reflect(nav, target).stepsCompleted.value <= target
    ensures nav.slides[0].beginsSection ==> Reflect(nav, target).stepsCompleted.value >= 0
  {
    if nav.slides[0].beginsSection {
      SectionsBeforeMonotone(nav.slides, 1, target + 1);
    }
  }

  /** Progress never decreases as the target moves forward. */
  lemma ReflectMonotone(nav: Nav, a: nat, b: nat)
    requires a <= b
    ensures Reflect(nav, a).stepsCompleted.value <= Reflect(nav, b).stepsCompleted.value
  {
    var n := |nav.slides|;
    SectionsBeforeMonotone(nav.slides, if a < n then a + 1 else n, if b < n then b + 1 else n);
  }

  /** With sections beginning at slides 0, 3 and 7, slide 0 gives progress
      0, slide 5 gives 1 and slide 7 gives 2. */
  lemma ReflectExample(nav: Nav)
    requires |nav.slides| >= 8
    requires forall j :: 0 <= j < 8 ==>
               (nav.slides[j].beginsSection <==> j == 0 || j == 3 || j == 7)
    ensures Reflect(nav, 0).stepsCompleted == Some(0)
    ensures Reflect(nav, 5).stepsCompleted == Some(1)
    ensures Reflect(nav, 7).stepsCompleted == Some(2)
  {
    var s := nav.slides;
    assert s[0].beginsSection && !s[1].beginsSection && !s[2].beginsSection;
    assert s[3].beginsSection && !s[4].beginsSection && !s[5].beginsSection;
    assert !s[6].beginsSection && s[7].beginsSection;
    assert SectionsBefore(s, 1) == 1;
    assert SectionsBefore(s, 3) == 1;
    assert SectionsBefore(s, 4) == 2;
    assert SectionsBefore(s, 6) == 2;
    assert SectionsBefore(s, 8) == 3;
  }

  // ---------------------------------------------------------------------
  // Lemmas: goToSlide

  /** goToSlide keeps the order of the slides and every flag but `current`;
      a slide ends up current exactly when it matches `id`. */
  lemma GoToRetags(nav: Nav, id: string)
    ensures SameSlides(nav.slides, GoTo(nav, id).slides)
    ensures forall i :: 0 <= i < |nav.slides| ==>
      (GoTo(nav, id).slides[i].current <==> Matches(nav.slides[i], id))
  {
  }

  /** With unique ids and an id other than the debug one, navigating to the
      id of slide `k` makes exactly that slide current and records its index
      and progress. */
  lemma GoToSelects(nav: Nav, k: nat)
    requires k < |nav.slides| && UniqueAt(nav.slides, k) && nav.slides[k].id != DebugId
    ensures var after := GoTo(nav, nav.slides[k].id);
      && |after.slides| == |nav.slides|
      && (forall i :: 0 <= i < |after.slides| ==> (after.slides[i].current <==> i == k))
      && FirstCurrentAt(after.slides, k)
      && after.currentSlideIndex == k
      && after.stepsCompleted == Some(SectionsBefore(nav.slides, k + 1) - 1)
  {
    var s := nav.slides;
    var id := s[k].id;
    assert LastMatch(s, id, |s|) == Some(k);
  }

  /** Navigating to an id that no slide has (and that is not the debug id)
      leaves no slide current and the progress fields as they were. */
  lemma GoToUnmatched(nav: Nav, id: string)
    requires id != DebugId
    requires forall i :: 0 <= i < |nav.slides| ==> nav.slides[i].id != id
    ensures forall i :: 0 <= i < |GoTo(nav, id).slides| ==> !GoTo(nav, id).slides[i].current
    ensures GoTo(nav, id).stepsCompleted == nav.stepsCompleted
    ensures GoTo(nav, id).currentSlideIndex == nav.currentSlideIndex
  {
    assert LastMatch(nav.slides, id, |nav.slides|).None?;
  }

  /** With unique ids and a non-debug id, at most one slide is current
      after goToSlide, and when one is, `currentSlideIndex` is its index. */
  lemma GoToAtMostOneCurrent(nav: Nav, id: string)
    requires UniqueIds(nav.slides) && id != DebugId
    ensures forall i, j :: 0 <= i < j < |GoTo(nav, id).slides| ==>
              !(GoTo(nav, id).slides[i].current && GoTo(nav, id).slides[j].current)
    ensures forall i :: 0 <= i < |GoTo(nav, id).slides| && GoTo(nav, id).slides[i].current ==>
              GoTo(nav, id).currentSlideIndex == i
  {
    forall i | 0 <= i < |GoTo(nav, id).slides| && GoTo(nav, id).slides[i].current
      ensures GoTo(nav, id).currentSlideIndex == i
    {
      assert nav.slides[i].id == id;
      UniqueIdsAt(nav.slides, i);
      GoToSelects(nav, i);
    }
  }

  /** The debug id marks every slide current, and since progress is
      reflected for each slide in turn, the last slide's index and progress
      are the ones that stay. */
  lemma GoToDebug(nav: Nav)
    requires |nav.slides| > 0
    ensures forall i :: 0 <= i < |GoTo(nav, DebugId).slides| ==> GoTo(nav, DebugId).slides[i].current
    ensures GoTo(nav, DebugId).currentSlideIndex == |nav.slides| - 1
    ensures GoTo(nav, DebugId).stepsCompleted == Some(SectionsBefore(nav.slides, |nav.slides|) - 1)
  {
    assert Matches(nav.slides[|nav.slides| - 1], DebugId);
  }

  /** LastMatch depends on the ids only. */
  lemma {:induction false} LastMatchSameIds(s: seq<Slide>, t: seq<Slide>, id: string, k: nat)
    requires k <= |s| && k <= |t|
    requires forall j :: 0 <= j < k ==> s[j].id == t[j].id
    ensures LastMatch(s, id, k) == LastMatch(t, id, k)
  {
    if k > 0 && !Matches(s[k - 1], id) {
      LastMatchSameIds(s, t, id, k - 1);
    }
  }

  /** When some slide matches, goToSlide forgets the state it started
      from: the current flags and progress fields before the call make no
      difference to the state after it. */
  lemma GoToForgets(nav: Nav, other: Nav, id: string, i: nat)
    requires SameSlides(nav.slides, other.slides)
    requires i < |nav.slides| && Matches(nav.slides[i], id)
    ensures GoTo(other, id) == GoTo(nav, id)
  {
    var s, t := nav.slides, other.slides;
    LastMatchSameIds(s, t, id, |s|);
    var j := LastMatch(s, id, |s|).value;
    SectionsBeforeSameFlags(s, t, j + 1);
    assert RetagUpTo(s, id, |s|) == RetagUpTo(t, id, |t|);
  }

  /** goToSlide is idempotent: a second call with the same id changes
      nothing. */
  lemma GoToIdempotent(nav: Nav, id: string)
    ensures GoTo(GoTo(nav, id), id) == GoTo(nav, id)
  {
    var once := GoTo(nav, id);
    GoToRetags(nav, id);
    match LastMatch(nav.slides, id, |nav.slides|)
    case None =>
      LastMatchSameIds(nav.slides, once.slides, id, |nav.slides|);
      assert RetagUpTo(once.slides, id, |once.slides|) == once.slides;
    case Some(j) =>
      GoToForgets(nav, once, id, j);
  }

}
