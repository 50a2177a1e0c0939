// The driver's side of PRP: what tegrabl_create_prp_list allocates and why the list
// tegrabl_prepare_prp2 fills always describes exactly the caller's buffer.
module NvmePrp {
  import opened Arith
  import opened NvmeSpec

  /** Page size chosen at start-up from the CAP register fields. */
  function PageSizeLog2(mpsmin: nat, mpsmax: nat): nat {
    Min(mpsmax + 12, Max(mpsmin + 12, 12))
  }

  function Max(a: int, b: int): int {
    if a < b then b else a
  }

  /** prp_list.max_size as tegrabl_create_prp_list computes it; max_entries is this over the page size. */
  function PrpListSize(mpsmin: nat, mdts: nat): nat {
    Min(MAX_TRANSFER, if mdts == 0 then MAX_TRANSFER else Pow2(mdts) * Pow2(mpsmin + 12))
  }

  /** The largest transfer is a whole, non-zero number of pages if and only if the smallest page
      the controller has is at most 512 KiB. */
  lemma TransferIsWholePages(mpsmin: nat, mpsmax: nat, mdts: nat)
    requires mpsmin <= mpsmax
    ensures var page := Pow2(PageSizeLog2(mpsmin, mpsmax));
            var size := PrpListSize(mpsmin, mdts);
            && 4096 <= page && size <= MAX_TRANSFER
            && (page <= size && size == (size / page) * page <==> mpsmin <= 7)
  {
    var page := Pow2(mpsmin + 12);
    Pow2Split(mpsmin, 12);
    assert Pow2(12) == 4096;
    assert Pow2(19) == MAX_TRANSFER;
    hide Pow2;
    MulMonotone(1, Pow2(mpsmin), 4096);
    if mpsmin > 7 {
      Pow2Grows(20, mpsmin + 12);
      Pow2Split(19, 1);
      Pow2Of1();
    } else {
      WholePages(mpsmin, mdts, page);
    }
  }

  lemma Pow2Of1()
    ensures Pow2(1) == 2
  {
  }

  lemma WholePages(mpsmin: nat, mdts: nat, page: nat)
    requires mpsmin <= 7 && page == Pow2(mpsmin + 12) && Pow2(19) == MAX_TRANSFER
    ensures var size := PrpListSize(mpsmin, mdts); page <= size && size == (size / page) * page
  {
    hide Pow2;
    var size := PrpListSize(mpsmin, mdts);
    if size == MAX_TRANSFER {
      Pow2Split(7 - mpsmin, mpsmin + 12);
      MulMonotone(1, Pow2(7 - mpsmin), page);
      DivModUnique(size, page, Pow2(7 - mpsmin), 0);
    } else {
      MulMonotone(1, Pow2(mdts), page);
      DivModUnique(size, page, Pow2(mdts), 0);
    }
  }

  /** cdw12 = 0xffff & (blkcnt - 1) keeps every count rw_blocks can pass. */
  lemma BlockCountFitsCdw12(g: Geometry, blkcnt: nat)
    requires ValidGeometry(g) && 1 <= blkcnt && blkcnt * g.blockSize <= g.maxSize
    ensures (blkcnt - 1) % 0x10000 + 1 == blkcnt
  {
    MulMonotone(8, g.blockSize, blkcnt);
  }

  /** list holds consecutive pages from base on. */
  ghost predicate Pages(list: seq<nat>, base: nat, pageSize: nat) {
    list == [] || (list[0] == base && Pages(list[1..], base + pageSize, pageSize))
  }

  lemma {:induction false} PagesAppend(list: seq<nat>, base: nat, pageSize: nat, next: nat)
    requires Pages(list, base, pageSize) && next == base + |list| * pageSize
    ensures Pages(list + [next], base, pageSize)
  {
    if list == [] {
      assert list + [next] == [next];
    } else {
      assert (list + [next])[1..] == list[1..] + [next];
      PagesAppend(list[1..], base + pageSize, pageSize, next);
    }
  }

  /** A list of consecutive pages decodes to the contiguous range it starts. */
  lemma {:induction false} ListContiguous(pageSize: nat, list: seq<nat>, n: nat, base: nat, len: nat)
    requires 0 < pageSize && base % pageSize == 0
    requires n <= |list| && Pages(list[..n], base, pageSize) && len <= n * pageSize
    ensures var r := ListSegments(pageSize, list, len);
            r.Some? && Contiguous(r.value, base, len)
            && forall s :: s in r.value ==> s.addr % pageSize == 0
    decreases n
  {
    if len > 0 {
      assert n > 0;
      assert list[..n][0] == list[0] && list[..n][1..] == list[1..][..n - 1];
      var here := Min(pageSize, len);
      ShiftMod(base, 1, pageSize);
      if here == len {
        assert ListSegments(pageSize, list, len).value == [Segment(base, len)];
      } else {
        LessThanAll(n, pageSize, len);
        ListContiguous(pageSize, list[1..], n - 1, base + pageSize, len - here);
        var rest := ListSegments(pageSize, list[1..], len - here).value;
        assert ([Segment(base, here)] + rest)[1..] == rest;
      }
    }
  }

  lemma LessThanAll(n: nat, pageSize: nat, len: nat)
    requires len <= n * pageSize && pageSize < len
    ensures 1 < n && len - pageSize <= (n - 1) * pageSize
  {
    assert n * pageSize == (n - 1) * pageSize + pageSize;
  }

  /** Entries the driver asks for after the first, partial page never exceed what it allocated,
      and always fit in one list page, so no chaining is ever needed. */
  lemma EntriesFit(g: Geometry, len: nat, offset: nat)
    requires ValidGeometry(g) && len <= g.maxSize && offset < g.pageSize
    requires len > 2 * g.pageSize - offset
    ensures var rest := len - (g.pageSize - offset);
            var entries := 1 + (rest - 1) / g.pageSize;
            && entries <= g.maxEntries
            && rest <= entries * g.pageSize
            && PagesFor(rest, g.pageSize) == entries
            && entries <= SlotsFrom(g.listAddr, g.pageSize)
  {
    hide PagesFor, SlotsFrom;
    var rest := len - (g.pageSize - offset);
    var entries := 1 + (rest - 1) / g.pageSize;
    PagesForIs(rest, g.pageSize);
    if g.maxEntries < entries {
      MulMonotone(g.maxEntries, entries - 1, g.pageSize);
    }
    PageOfSlots(g.listAddr, g.pageSize);
    ListIsAPage(g);
  }

  lemma PagesForIs(rest: nat, pageSize: nat)
    requires 0 < rest && 0 < pageSize
    ensures var n := 1 + (rest - 1) / pageSize;
            PagesFor(rest, pageSize) == n && rest <= n * pageSize && (n - 1) * pageSize < rest
  {
    var q := (rest - 1) / pageSize;
    assert rest - 1 == q * pageSize + (rest - 1) % pageSize;
    ShiftMod(rest - 1, 1, pageSize);
    assert rest + pageSize - 1 == (rest - 1) + 1 * pageSize;
    assert (q + 1) * pageSize == q * pageSize + pageSize;
  }

  lemma PageOfSlots(addr: nat, pageSize: nat)
    requires 0 < pageSize && addr % pageSize == 0
    ensures SlotsFrom(addr, pageSize) == pageSize / PRP_ENTRY_BYTES
  {
  }

  lemma ListIsAPage(g: Geometry)
    requires ValidGeometry(g)
    ensures g.maxEntries <= g.pageSize / PRP_ENTRY_BYTES
  {
    MulMonotone(4096, g.pageSize, g.maxEntries);
  }
}
