/**
 * Paging through the displays: the page under the current scroll offset,
 * the wrap-around previous / next controls, and the two spacers that
 * position the pages in the controlled scroll view. Offsets and widths are
 * real numbers, as the scroll values are.
 */
module Pagination {
  import opened Wrappers
  import opened Decimal

  /** JavaScript's `Math.round`: halves round up. */
  function Round(x: real): (r: int)
    ensures r as real - 0.5 <= x < r as real + 0.5
  {
    (x + 0.5).Floor
  }

  /** The page nearest the scroll offset. */
  function CurrentIndex(offset: real, pageWidth: real): int
    requires pageWidth > 0.0
  {
    Round(offset / pageWidth)
  }

  /** One page back, from the first page round to the last. */
  function PreviousIndex(index: int, pageCount: int): (r: int)
    ensures index == 0 ==> r == pageCount - 1
    ensures index != 0 ==> r == index - 1
  {
    if index == 0 then pageCount - 1 else index - 1
  }

  /** One page on, from the last page (or beyond) round to the first. */
  function NextIndex(index: int, pageCount: int): (r: int)
    ensures index >= pageCount - 1 ==> r == 0
    ensures index < pageCount - 1 ==> r == index + 1
  {
    if index >= pageCount - 1 then 0 else index + 1
  }

  /** `previous`: the offset to animate to, or None when scrolling is disabled. */
  function Previous(enabled: bool, offset: real, pageWidth: real, pageCount: int): (target: Option<real>)
    requires pageWidth > 0.0
    ensures target.None? <==> !enabled
    ensures target.Some? ==> target.value == PreviousIndex(CurrentIndex(offset, pageWidth), pageCount) as real * pageWidth
  {
    if !enabled then None
    else
      var currentIndex := CurrentIndex(offset, pageWidth);
      var nextIndex := if currentIndex == 0 then pageCount - 1 else currentIndex - 1;
      Some(nextIndex as real * pageWidth)
  }

  /** `next`: the offset to animate to, or None when scrolling is disabled. */
  function Next(enabled: bool, offset: real, pageWidth: real, pageCount: int): (target: Option<real>)
    requires pageWidth > 0.0
    ensures target.None? <==> !enabled
    ensures target.Some? ==> target.value == NextIndex(CurrentIndex(offset, pageWidth), pageCount) as real * pageWidth
  {
    if !enabled then None
    else
      var currentIndex := CurrentIndex(offset, pageWidth);
      var nextIndex := if currentIndex >= pageCount - 1 then 0 else currentIndex + 1;
      Some(nextIndex as real * pageWidth)
  }

  /** The widths of the left and right spacers around the pages. */
  function SpacerWidths(offset: real, pageWidth: real, pageCount: int): (widths: (real, real))
    ensures widths.0 + widths.1 == (pageCount - 1) as real * pageWidth
    ensures widths.1 == offset
  {
    var remainingWidth := (pageCount - 1) as real * pageWidth - offset;
    (remainingWidth, offset)
  }

  /** A page index lies within the pages. */
  predicate InRange(index: int, pageCount: int) {
    0 <= index < pageCount
  }

  /** Previous and next keep an index within the pages and undo each other. */
  lemma StepsStayInRangeAndInvert(index: int, pageCount: int)
    requires InRange(index, pageCount)
    ensures InRange(PreviousIndex(index, pageCount), pageCount)
    ensures InRange(NextIndex(index, pageCount), pageCount)
    ensures NextIndex(PreviousIndex(index, pageCount), pageCount) == index
    ensures PreviousIndex(NextIndex(index, pageCount), pageCount) == index
  {
  }

  /** At rest on a page, the current index is that page; so is any offset less than half a page away. */
  lemma SettledOffsetGivesIndex(index: int, pageWidth: real, offset: real)
    requires pageWidth > 0.0
    requires index as real * pageWidth - pageWidth / 2.0 <= offset < index as real * pageWidth + pageWidth / 2.0
    ensures CurrentIndex(offset, pageWidth) == index
  {
    var x := offset / pageWidth;
    var lo, hi := index as real - 0.5, index as real + 0.5;
    assert x * pageWidth == offset;
    assert lo <= x by {
      assert lo * pageWidth == index as real * pageWidth - pageWidth / 2.0;
      if x < lo {
        ScaleStrict(x, lo, pageWidth);
      }
    }
    assert x < hi by {
      assert hi * pageWidth == index as real * pageWidth + pageWidth / 2.0;
      if x >= hi {
        ScaleWeak(hi, x, pageWidth);
      }
    }
  }

  lemma ScaleStrict(a: real, b: real, w: real)
    requires a < b && w > 0.0
    ensures a * w < b * w
  {
  }

  lemma ScaleWeak(a: real, b: real, w: real)
    requires a <= b && w > 0.0
    ensures a * w <= b * w
  {
  }

  /** Once the animation to the target of `next` completes, the current index is the next page. */
  lemma NextThenSettle(offset: real, pageWidth: real, pageCount: int)
    requires pageWidth > 0.0
    ensures var target := Next(true, offset, pageWidth, pageCount).value;
      CurrentIndex(target, pageWidth) == NextIndex(CurrentIndex(offset, pageWidth), pageCount)
  {
    var i := NextIndex(CurrentIndex(offset, pageWidth), pageCount);
    SettledOffsetGivesIndex(i, pageWidth, i as real * pageWidth);
    assert Next(true, offset, pageWidth, pageCount).value == i as real * pageWidth;
  }

  /** Once the animation to the target of `previous` completes, the current index is the previous page. */
  lemma PreviousThenSettle(offset: real, pageWidth: real, pageCount: int)
    requires pageWidth > 0.0
    ensures var target := Previous(true, offset, pageWidth, pageCount).value;
      CurrentIndex(target, pageWidth) == PreviousIndex(CurrentIndex(offset, pageWidth), pageCount)
  {
    var i := PreviousIndex(CurrentIndex(offset, pageWidth), pageCount);
    SettledOffsetGivesIndex(i, pageWidth, i as real * pageWidth);
    assert Previous(true, offset, pageWidth, pageCount).value == i as real * pageWidth;
  }

  /** `k` presses of next, each allowed to settle. */
  function NextTimes(index: int, pageCount: int, k: nat): int {
    if k == 0 then index else NextIndex(NextTimes(index, pageCount, k - 1), pageCount)
  }

  /** Pressing next walks round the pages in order: after `k` presses, `k` pages on, modulo the page count. */
  lemma {:induction false} NextWalksRound(index: int, pageCount: int, k: nat)
    requires InRange(index, pageCount)
    ensures NextTimes(index, pageCount, k) == (index + k) % pageCount
  {
    if k > 0 {
      NextWalksRound(index, pageCount, k - 1);
      assert NextTimes(index, pageCount, k) == NextIndex(NextTimes(index, pageCount, k - 1), pageCount);
      StepMod(index + k - 1, pageCount);
    }
  }

  /** Adding one to a number moves its remainder on by one, from the last remainder back to 0. */
  lemma StepMod(a: int, n: int)
    requires n > 0
    ensures (a + 1) % n == if a % n == n - 1 then 0 else a % n + 1
  {
    var q, j := a / n, a % n;
    assert a == q * n + j;
    if j == n - 1 {
      assert a + 1 == (q + 1) * n + 0;
      DivModUnique(a + 1, n, q + 1, 0);
    } else {
      DivModUnique(a + 1, n, q, j + 1);
    }
  }

  /** Going right round the pages comes back to the start. */
  lemma NextCycle(index: int, pageCount: int)
    requires InRange(index, pageCount)
    ensures NextTimes(index, pageCount, pageCount) == index
  {
    NextWalksRound(index, pageCount, pageCount);
    DivModUnique(index + pageCount, pageCount, 1, index);
  }
}
