// The page window the NVMe driver opens in the SMMU around a buffer, and closes again.
module NvmeSmmu {
  import opened Arith

  /** Start of the window: the buffer rounded down to its page. */
  function WindowBase(buffer: nat, pageSize: nat): nat
    requires 0 < pageSize
  {
    buffer - buffer % pageSize
  }

  /** Size of the window as nvme_smmu_protect and nvme_smmu_unprotect both compute it: grown by
      what the base moved, then rounded up to whole pages. */
  function WindowSize(buffer: nat, size: nat, pageSize: nat): nat
    requires 0 < pageSize
  {
    var grown := size + buffer % pageSize;
    if grown % pageSize == 0 then grown else grown + (pageSize - grown % pageSize)
  }

  predicate Between(p: nat, lo: nat, hi: nat) {
    lo <= p < hi
  }

  function PagesBetween(lo: nat, hi: nat): set<nat> {
    set p: nat | 0 <= p < hi && Between(p, lo, hi)
  }

  /** The pages the SMMU maps for a window. */
  function PagesOf(base: nat, size: nat, pageSize: nat): set<nat>
    requires 0 < pageSize
  {
    PagesBetween(base / pageSize, (base + size) / pageSize)
  }

  function Window(buffer: nat, size: nat, pageSize: nat): set<nat>
    requires 0 < pageSize
  {
    PagesOf(WindowBase(buffer, pageSize), WindowSize(buffer, size, pageSize), pageSize)
  }

  /** The window, step by step as the driver computes it. */
  lemma WindowIs(buffer: nat, size: nat, pageSize: nat)
    requires 0 < pageSize
    ensures var base := if buffer % pageSize != 0 then buffer - buffer % pageSize else buffer;
            var grown := size + (buffer - base);
            var whole := if grown % pageSize != 0 then grown + (pageSize - grown % pageSize) else grown;
            && 0 <= base <= buffer && 0 <= grown <= whole && (0 < size ==> 0 < whole)
            && whole == WindowSize(buffer, size, pageSize)
            && Window(buffer, size, pageSize) == PagesOf(base, whole, pageSize)
  {
    hide PagesOf;
  }

  /** Whole pages needed for grown bytes. */
  function PageCount(grown: nat, pageSize: nat): nat
    requires 0 < pageSize
  {
    grown / pageSize + if grown % pageSize == 0 then 0 else 1
  }

  lemma PageCountBounds(grown: nat, pageSize: nat)
    requires 0 < pageSize
    ensures var g := PageCount(grown, pageSize);
            grown <= g * pageSize < grown + pageSize
            && g * pageSize == (if grown % pageSize == 0 then grown else grown + (pageSize - grown % pageSize))
  {
    assert (grown / pageSize + 1) * pageSize == (grown / pageSize) * pageSize + pageSize;
  }

  lemma WindowEnds(buffer: nat, size: nat, pageSize: nat)
    requires 0 < pageSize
    ensures var g := PageCount(size + buffer % pageSize, pageSize);
            WindowBase(buffer, pageSize) / pageSize == buffer / pageSize
            && WindowSize(buffer, size, pageSize) == g * pageSize
            && (WindowBase(buffer, pageSize) + WindowSize(buffer, size, pageSize)) / pageSize == buffer / pageSize + g
  {
    var q, g := buffer / pageSize, PageCount(size + buffer % pageSize, pageSize);
    PageCountBounds(size + buffer % pageSize, pageSize);
    assert WindowBase(buffer, pageSize) == 0 + q * pageSize;
    ShiftMod(0, q, pageSize);
    DivModUnique(0, pageSize, 0, 0);
    ShiftMod(q * pageSize, g, pageSize);
  }

  /** Page p starts before the end of the range iff it is among the g pages from page q on. */
  lemma StartsBefore(p: int, q: int, g: int, grown: int, pageSize: nat)
    requires grown <= g * pageSize < grown + pageSize
    ensures p * pageSize < q * pageSize + grown <==> p < q + g
  {
    Distribute(q, g, pageSize);
    Distribute(q + g, -1, pageSize);
    MulMonotone(p, q + g - 1, pageSize);
    MulMonotone(q + g, p, pageSize);
  }

  lemma EndsAfter(p: int, q: int, r: nat, pageSize: nat)
    requires r < pageSize
    ensures q * pageSize + r < (p + 1) * pageSize <==> q <= p
  {
    Distribute(q, 1, pageSize);
    MulMonotone(p + 1, q, pageSize);
    MulMonotone(q + 1, p + 1, pageSize);
  }

  lemma InWindow(buffer: nat, size: nat, pageSize: nat, p: nat)
    requires 0 < pageSize
    ensures p in Window(buffer, size, pageSize)
            <==> buffer / pageSize <= p < buffer / pageSize + PageCount(size + buffer % pageSize, pageSize)
  {
    WindowEnds(buffer, size, pageSize);
    hide WindowBase, WindowSize, PageCount;
  }

  /** The window is the least one: a page is in it exactly when some byte of the buffer is on
      that page. */
  lemma WindowIsLeast(buffer: nat, size: nat, pageSize: nat, p: nat)
    requires 0 < pageSize && 0 < size
    ensures p in Window(buffer, size, pageSize) <==> (p * pageSize < buffer + size && buffer < (p + 1) * pageSize)
  {
    hide Window, PageCount;
    var q, grown := buffer / pageSize, size + buffer % pageSize;
    PageCountBounds(grown, pageSize);
    InWindow(buffer, size, pageSize, p);
    StartsBefore(p, q, PageCount(grown, pageSize), grown, pageSize);
    EndsAfter(p, q, buffer % pageSize, pageSize);
    assert buffer == q * pageSize + buffer % pageSize;
  }

  /** A queue buffer is page aligned, so unprotecting it with the size that protecting it
      returned closes the very same window; away from a page boundary it would close more. */
  lemma FreeClosesTheSameWindow(buffer: nat, size: nat, pageSize: nat)
    requires 0 < pageSize && 0 < size
    ensures (Window(buffer, WindowSize(buffer, size, pageSize), pageSize) == Window(buffer, size, pageSize))
            <==> buffer % pageSize == 0
  {
    var w, r := WindowSize(buffer, size, pageSize), buffer % pageSize;
    var g := PageCount(size + r, pageSize);
    WindowEnds(buffer, size, pageSize);
    WindowEnds(buffer, w, pageSize);
    PageCountBounds(size + r, pageSize);
    if r == 0 {
      DivModUnique(w, pageSize, g, 0);
    } else {
      DivModUnique(w + r, pageSize, g, r);
      var last := buffer / pageSize + g;
      assert Between(last, buffer / pageSize, last + 1);
      assert last in Window(buffer, w, pageSize) && last !in Window(buffer, size, pageSize);
    }
  }
}
