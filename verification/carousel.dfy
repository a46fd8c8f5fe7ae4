/** The testimonial carousel's index arithmetic: how many slides show at a
    width, where "previous", "next", a dot or a swipe moves the first visible
    slide, how many dots there are and which one is active. */
module Carousel {

  /** `slides` slides, `slidesToShow` of them visible at once, starting at index
      `currentIndex`. */
  datatype Carousel = Carousel(slides: nat, slidesToShow: int, currentIndex: int)

  /** Slides visible at a window width: one on phones, two on tablets, three above. */
  function SlidesToShow(width: int): (k: int)
    ensures 1 <= k <= 3
    ensures k == 1 <==> width < 768
    ensures k == 3 <==> width >= 1024
  {
    if width < 768 then 1
    else if width < 1024 then 2
    else 3
  }

  /** A wider window never shows fewer slides. */
  lemma SlidesToShowMonotone(w1: int, w2: int)
    requires w1 <= w2
    ensures SlidesToShow(w1) <= SlidesToShow(w2)
  {
  }

  /** `Math.max(0, Math.min(index, slides - k))`: the nearest index from which `k`
      slides are visible, or 0 when there are not even `k` slides. */
  function ClampIndex(index: int, slides: nat, k: int): (i: int)
    ensures 0 <= i
    ensures slides >= k ==> i <= slides - k
    ensures slides <= k ==> i == 0
    ensures 0 <= index <= slides - k ==> i == index
    ensures index < 0 ==> i == 0
    ensures index > slides - k ==> i == if slides >= k then slides - k else 0
  {
    var upper := if index <= slides - k then index else slides - k;
    if upper < 0 then 0 else upper
  }

  /** The states the carousel can be in: at least one slide (with none the carousel
      is never set up), one to three visible, and an index that keeps the visible
      slides inside the list (0 when there are fewer slides than fit). */
  predicate Wf(c: Carousel) {
    && c.slides >= 1
    && 1 <= c.slidesToShow <= 3
    && 0 <= c.currentIndex
    && (c.currentIndex == 0 || c.currentIndex <= c.slides - c.slidesToShow)
  }

  /** Set-up for `slides` slides at window width `width`. The script sets up a
      carousel only when it finds slides, so there is always at least one. */
  function Init(slides: nat, width: int): (c: Carousel)
    requires slides >= 1
    ensures c.slides == slides && c.slidesToShow == SlidesToShow(width)
    ensures Wf(c) && c.currentIndex == 0
  {
    Carousel(slides, SlidesToShow(width), 0)
  }

  function GoToSlide(c: Carousel, index: int): (r: Carousel)
    ensures r.slides == c.slides && r.slidesToShow == c.slidesToShow
    ensures r.currentIndex == ClampIndex(index, c.slides, c.slidesToShow)
    ensures 1 <= c.slidesToShow <= 3 && c.slides >= 1 ==> Wf(r)
  {
    c.(currentIndex := ClampIndex(index, c.slides, c.slidesToShow))
  }

  /** "Previous" moves back one screenful and stops at the start: it never wraps. */
  function PrevSlide(c: Carousel): (r: Carousel)
    ensures r.slides == c.slides && r.slidesToShow == c.slidesToShow
    ensures c.currentIndex < c.slidesToShow ==> r.currentIndex == 0
    ensures c.slidesToShow <= c.currentIndex <= c.slides ==>
      r.currentIndex == ClampIndex(c.currentIndex - c.slidesToShow, c.slides, c.slidesToShow)
    ensures Wf(c) ==> Wf(r) && r.currentIndex <= c.currentIndex
  {
    GoToSlide(c, c.currentIndex - c.slidesToShow)
  }

  /** "Next" moves forward one screenful, stopping at the last full screen, and from
      the last full screen wraps round to the start. */
  function NextSlide(c: Carousel): (r: Carousel)
    ensures r.slides == c.slides && r.slidesToShow == c.slidesToShow
    ensures c.currentIndex >= c.slides - c.slidesToShow ==> r.currentIndex == 0
    ensures 0 <= c.currentIndex < c.slides - c.slidesToShow && 1 <= c.slidesToShow ==>
      c.currentIndex < r.currentIndex == (if c.currentIndex + c.slidesToShow <= c.slides - c.slidesToShow
                                          then c.currentIndex + c.slidesToShow else c.slides - c.slidesToShow)
    ensures Wf(c) ==> Wf(r)
  {
    if c.currentIndex >= c.slides - c.slidesToShow then GoToSlide(c, 0)
    else GoToSlide(c, c.currentIndex + c.slidesToShow)
  }

  /** `Math.ceil(slides / k)`: one dot per screenful. */
  function DotCount(slides: nat, k: int): (n: nat)
    requires k >= 1
    ensures n * k >= slides
    ensures n == 0 || (n - 1) * k < slides
  {
    (slides + k - 1) / k
  }

  /** The dot marked active, as the script computes it: `Math.floor(currentIndex / k)`. */
  function ActiveDot(c: Carousel): (d: int)
    requires c.slidesToShow >= 1
    ensures d * c.slidesToShow <= c.currentIndex < (d + 1) * c.slidesToShow
  {
    c.currentIndex / c.slidesToShow
  }

  /** The script's active dot always names an existing dot. */
  lemma ActiveDotExists(c: Carousel)
    requires Wf(c)
    ensures 0 <= ActiveDot(c) < DotCount(c.slides, c.slidesToShow)
  {
    // With k fixed the arithmetic is linear.
    var k := c.slidesToShow;
    if k == 1 {
    } else if k == 2 {
    } else {
    }
  }

  /** Four slides shown three at a time have two dots. Clicking the second one asks
      for index 3; the script clamps that to index 1 (the last full screen) and then
      marks the first dot active, not the one that was clicked. */
  lemma ClickedDotNotActive()
    ensures var c := Carousel(4, 3, 0);
      && Wf(c)
      && DotCount(4, 3) == 2
      && GoToSlide(c, 1 * 3).currentIndex == 1
      && ActiveDot(GoToSlide(c, 1 * 3)) == 0
  {
  }

  /** The active dot as evidently intended: the last dot when the carousel sits at
      its last full screen, the screenful containing the index otherwise. */
  function ActiveDotCorrected(c: Carousel): (d: int)
    requires Wf(c)
    ensures 0 <= d < DotCount(c.slides, c.slidesToShow)
  {
    var k := c.slidesToShow;
    if c.currentIndex >= c.slides - k then
      DotCount(c.slides, k) - 1
    else
      ActiveDotExists(c);
      c.currentIndex / k
  }

  /** With the corrected rule, clicking any dot makes that dot the active one. */
  lemma DotClickActivatesDot(c: Carousel, i: int)
    requires Wf(c)
    requires 0 <= i < DotCount(c.slides, c.slidesToShow)
    ensures ActiveDotCorrected(GoToSlide(c, i * c.slidesToShow)) == i
  {
    if c.slidesToShow == 1 {
      assert i * c.slidesToShow == i;
      DotClickOne(c, i);
    } else if c.slidesToShow == 2 {
      assert i * c.slidesToShow == 2 * i;
      DotClickTwo(c, i);
    } else {
      assert i * c.slidesToShow == 3 * i;
      DotClickThree(c, i);
    }
  }

  lemma DotClickOne(c: Carousel, i: int)
    requires Wf(c) && c.slidesToShow == 1
    requires 0 <= i < DotCount(c.slides, 1)
    ensures ActiveDotCorrected(GoToSlide(c, i)) == i
  {
  }

  lemma DotClickTwo(c: Carousel, i: int)
    requires Wf(c) && c.slidesToShow == 2
    requires 0 <= i < DotCount(c.slides, 2)
    ensures ActiveDotCorrected(GoToSlide(c, 2 * i)) == i
  {
  }

  lemma DotClickThree(c: Carousel, i: int)
    requires Wf(c) && c.slidesToShow == 3
    requires 0 <= i < DotCount(c.slides, 3)
    ensures ActiveDotCorrected(GoToSlide(c, 3 * i)) == i
  {
  }

  /** The correction changes nothing when the slides fill whole screens. */
  lemma CorrectionAgreesOnWholeScreens(c: Carousel)
    requires Wf(c)
    requires c.slides % c.slidesToShow == 0
    ensures ActiveDotCorrected(c) == ActiveDot(c)
  {
    var k := c.slidesToShow;
    if k == 1 {
    } else if k == 2 {
    } else {
    }
  }

  /** The dot row as the script lights it: one flag per dot, set for the dot whose
      number is the index divided by the slides shown, rounded down. Exactly one
      dot is lit. */
  function DotRow(c: Carousel): (row: seq<bool>)
    requires Wf(c)
    ensures |row| == DotCount(c.slides, c.slidesToShow)
    ensures forall i :: 0 <= i < |row| ==> (row[i] <==> i == ActiveDot(c))
    ensures 0 <= ActiveDot(c) < |row| && row[ActiveDot(c)]
  {
    ActiveDotExists(c);
    var active := ActiveDot(c);
    seq(DotCount(c.slides, c.slidesToShow), i => i == active)
  }

  /** The dot row with the corrected active dot: on the last screen the last dot is
      lit, so the dot just clicked is the one that lights up. */
  function DotRowCorrected(c: Carousel): (row: seq<bool>)
    requires Wf(c)
    ensures |row| == DotCount(c.slides, c.slidesToShow)
    ensures forall i :: 0 <= i < |row| ==> (row[i] <==> i == ActiveDotCorrected(c))
  {
    var active := ActiveDotCorrected(c);
    seq(DotCount(c.slides, c.slidesToShow), i => i == active)
  }

  /** With four slides three at a time, clicking the second dot lights the first dot
      in the script's row and the clicked dot in the corrected row; when the slides
      fill whole screens the two rows are the same. */
  lemma DotRowsDiffer()
    ensures var c := GoToSlide(Carousel(4, 3, 0), 1 * 3);
      && Wf(c)
      && DotRow(c) == [true, false]
      && DotRowCorrected(c) == [false, true]
  {
    var c := GoToSlide(Carousel(4, 3, 0), 1 * 3);
    assert c.currentIndex == 1;
    assert ActiveDotCorrected(c) == 1;
    assert DotRow(c)[0] && !DotRow(c)[1];
    assert !DotRowCorrected(c)[0] && DotRowCorrected(c)[1];
  }

  /** When the slides fill whole screens the corrected row is the script's row. */
  lemma DotRowsAgreeOnWholeScreens(c: Carousel)
    requires Wf(c)
    requires c.slides % c.slidesToShow == 0
    ensures DotRowCorrected(c) == DotRow(c)
  {
    CorrectionAgreesOnWholeScreens(c);
  }

  /** What a finished touch gesture does. */
  datatype Swipe = SwipeNext | SwipePrev | NoSwipe

  const SwipeThreshold: int := 50

  /** A finger moving left by more than 50 pixels goes to the next screen, right by
      more than 50 to the previous one; shorter moves do nothing. */
  function HandleSwipe(startX: int, endX: int): (s: Swipe)
    ensures s == SwipeNext <==> startX - endX > SwipeThreshold
    ensures s == SwipePrev <==> endX - startX > SwipeThreshold
  {
    var diff := startX - endX;
    if diff > SwipeThreshold then SwipeNext
    else if diff < -SwipeThreshold then SwipePrev
    else NoSwipe
  }

  /** Swiping the other way round does the opposite. */
  lemma SwipeMirror(startX: int, endX: int)
    ensures HandleSwipe(startX, endX) == SwipeNext <==> HandleSwipe(endX, startX) == SwipePrev
    ensures HandleSwipe(startX, endX) == NoSwipe <==> HandleSwipe(endX, startX) == NoSwipe
  {
  }

  /** A window resize that changes the number of visible slides rebuilds the dots and
      goes back to the first slide; any other resize changes nothing. */
  function Resize(c: Carousel, width: int): (r: Carousel)
    ensures SlidesToShow(width) == c.slidesToShow ==> r == c
    ensures SlidesToShow(width) != c.slidesToShow ==>
      r == Carousel(c.slides, SlidesToShow(width), 0)
    ensures Wf(c) ==> Wf(r)
  {
    var k := SlidesToShow(width);
    if k != c.slidesToShow then GoToSlide(c.(slidesToShow := k), 0) else c
  }

  /** The carousel's events: the arrow buttons, a dot, a swipe, the autoplay tick
      (which acts as "next") and a resize. */
  datatype Event =
    | PrevClick
    | NextClick
    | DotClick(dot: int)
    | TouchSwipe(startX: int, endX: int)
    | AutoplayTick
    | WindowResize(width: int)

  /** The carousel after one event. Only a resize changes the slides shown; a dot
      click goes to that dot's first slide; the autoplay tick is the "next" button;
      a short swipe does nothing. */
  function Step(c: Carousel, e: Event): (r: Carousel)
    requires c.slidesToShow >= 1
    ensures r.slides == c.slides
    ensures !e.WindowResize? ==> r.slidesToShow == c.slidesToShow
    ensures e == PrevClick ==> r == PrevSlide(c)
    ensures e == NextClick ==> r == NextSlide(c)
    ensures e.WindowResize? ==> r == Resize(c, e.width)
    ensures e.DotClick? ==>
      r.currentIndex == ClampIndex(e.dot * c.slidesToShow, c.slides, c.slidesToShow)
    ensures e == AutoplayTick ==> r == NextSlide(c)
    ensures e.TouchSwipe? && -SwipeThreshold <= e.startX - e.endX <= SwipeThreshold ==> r == c
    ensures e.TouchSwipe? && e.startX - e.endX > SwipeThreshold ==> r == NextSlide(c)
    ensures e.TouchSwipe? && e.endX - e.startX > SwipeThreshold ==> r == PrevSlide(c)
  {
    match e
    case PrevClick => PrevSlide(c)
    case NextClick | AutoplayTick => NextSlide(c)
    case DotClick(i) => GoToSlide(c, i * c.slidesToShow)
    case TouchSwipe(startX, endX) =>
      (match HandleSwipe(startX, endX)
       case SwipeNext => NextSlide(c)
       case SwipePrev => PrevSlide(c)
       case NoSwipe => c)
    case WindowResize(width) => Resize(c, width)
  }

  /** Whatever happens, the carousel stays well formed: the index never runs past the
      last full screen and never goes negative. */
  lemma StepKeepsWf(c: Carousel, e: Event)
    requires Wf(c)
    ensures Wf(Step(c, e))
  {
  }
}
