/**
 * initHorizontalMenuScroll: below a screen width of 1260 the menu list scrolls sideways,
 * and a gradient at each edge shows there is more menu beyond it, with a 10 px tolerance.
 */
module MenuScroll {

  /** The widest screen on which the menu list scrolls sideways. */
  const MaxScrollWidth: int := 1260

  /** The tolerance, in pixels, before a gradient appears. */
  const Tolerance: int := 10

  /** checkMenuScroll's test on window.innerWidth. */
  predicate NeedsScroll(screenWidth: int)
  {
    screenWidth <= MaxScrollWidth
  }

  /** The left gradient is visible when the list is scrolled more than the tolerance. */
  predicate LeftGradientVisible(scrollLeft: int)
  {
    scrollLeft > Tolerance
  }

  /** The right gradient is visible when more than the tolerance is left to scroll:
      maxScrollLeft is scrollWidth - clientWidth. */
  predicate RightGradientVisible(scrollLeft: int, scrollWidth: int, clientWidth: int)
  {
    scrollLeft < scrollWidth - clientWidth - Tolerance
  }

  /** At the two ends of the scroll range the gradient on the side with nothing beyond is
      hidden, and when the list overflows by more than the tolerance the one on the other side
      shows. When it overflows by more than twice the tolerance, wherever it is scrolled to
      within its range at least one gradient shows; when it overflows by at most the
      tolerance, no right gradient ever shows from a non-negative position. */
  lemma GradientsSignalOverflow(scrollLeft: int, scrollWidth: int, clientWidth: int)
    ensures var maxScrollLeft := scrollWidth - clientWidth;
      && !LeftGradientVisible(0) && !RightGradientVisible(maxScrollLeft, scrollWidth, clientWidth)
      && (maxScrollLeft > Tolerance ==>
            RightGradientVisible(0, scrollWidth, clientWidth) && LeftGradientVisible(maxScrollLeft))
    ensures 0 <= scrollLeft <= scrollWidth - clientWidth && scrollWidth - clientWidth > 2 * Tolerance ==>
      LeftGradientVisible(scrollLeft) || RightGradientVisible(scrollLeft, scrollWidth, clientWidth)
    ensures 0 <= scrollLeft && scrollWidth - clientWidth <= Tolerance ==>
      !RightGradientVisible(scrollLeft, scrollWidth, clientWidth)
  {
  }

  /** The menu list and its two gradients: whether the list has menu-scrollable and whether
      each gradient has `visible`. The gradients always exist once created. */
  class HorizontalMenu {
    var scrollable: bool
    var leftVisible: bool
    var rightVisible: bool

    /** createGradientIndicators: two gradients, neither visible yet; the list as the
        markup delivers it. */
    constructor (scrollable: bool)
      ensures this.scrollable == scrollable && !leftVisible && !rightVisible
    {
      this.scrollable := scrollable;
      leftVisible := false;
      rightVisible := false;
    }

    /** updateGradientVisibility, run on every scroll of the list. */
    method UpdateGradientVisibility(scrollLeft: int, scrollWidth: int, clientWidth: int)
      modifies this
      ensures scrollable == old(scrollable)
      ensures leftVisible == LeftGradientVisible(scrollLeft)
      ensures rightVisible == RightGradientVisible(scrollLeft, scrollWidth, clientWidth)
    {
      var maxScrollLeft := scrollWidth - clientWidth;
      if scrollLeft > 10 {
        leftVisible := true;
      } else {
        leftVisible := false;
      }
      if scrollLeft < maxScrollLeft - 10 {
        rightVisible := true;
      } else {
        rightVisible := false;
      }
    }

    /** hideGradients. */
    method HideGradients()
      modifies this
      ensures scrollable == old(scrollable) && !leftVisible && !rightVisible
    {
      leftVisible := false;
      rightVisible := false;
    }

    /** checkMenuScroll: on a narrow screen the list scrolls and the gradients follow the
        scroll position; on a wide one it does not scroll and both gradients are hidden. */
    method CheckMenuScroll(screenWidth: int, scrollLeft: int, scrollWidth: int, clientWidth: int)
      returns (needsScroll: bool)
      modifies this
      ensures needsScroll == NeedsScroll(screenWidth) && scrollable == needsScroll
      ensures leftVisible == (needsScroll && LeftGradientVisible(scrollLeft))
      ensures rightVisible == (needsScroll && RightGradientVisible(scrollLeft, scrollWidth, clientWidth))
    {
      needsScroll := screenWidth <= 1260;
      if needsScroll {
        scrollable := true;
        UpdateGradientVisibility(scrollLeft, scrollWidth, clientWidth);
      } else {
        scrollable := false;
        HideGradients();
      }
    }
  }
}
