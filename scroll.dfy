/**
 * `scroll_to_bottom`: scroll, wait, and stop once the page height stops
 * changing or the attempt budget is spent. The driver is replaced by a
 * height oracle: height(0) is the height read before the loop and
 * height(k) the height read after the k-th scroll command.
 */
module Scroll {

  /** `MAX_SCROLLS`. */
  const MaxScrolls: nat := 60

  /**
   * Runs the loop and returns how many scroll commands it issued: the first
   * k at which the height equals the one before, or MaxScrolls when the
   * height changes every time.
   */
  method ScrollToBottom(height: nat -> int) returns (issued: nat)
    ensures 1 <= issued <= MaxScrolls
    ensures forall k :: 1 <= k < issued ==> height(k) != height(k - 1)
    ensures issued < MaxScrolls ==> height(issued) == height(issued - 1)
  {
    var lastHeight := height(0);
    var scrolls := 0;
    issued := 0;
    while scrolls < MaxScrolls
      invariant scrolls <= MaxScrolls && issued == scrolls
      invariant lastHeight == height(scrolls)
      invariant forall k :: 1 <= k <= scrolls ==> height(k) != height(k - 1)
    {
      issued := issued + 1;  // window.scrollTo(0, document.body.scrollHeight)
      var newHeight := height(issued);
      if newHeight == lastHeight {
        return;
      }
      lastHeight := newHeight;
      scrolls := scrolls + 1;
    }
  }

  /** The number of commands is determined by the heights alone. */
  lemma StopIsUnique(height: nat -> int, i: nat, j: nat)
    requires 1 <= i <= MaxScrolls && 1 <= j <= MaxScrolls
    requires forall k :: 1 <= k < i ==> height(k) != height(k - 1)
    requires i < MaxScrolls ==> height(i) == height(i - 1)
    requires forall k :: 1 <= k < j ==> height(k) != height(k - 1)
    requires j < MaxScrolls ==> height(j) == height(j - 1)
    ensures i == j
  {
  }
}
