/**
 * Linear memory as `load_memory` and `save_memory` see it: a page count and
 * a byte buffer of that many 64 KiB pages. Growth zero-extends the buffer.
 */
module Memory {
  const PageSize: nat := 65536

  function Zeros(n: nat): (z: seq<bv8>)
    ensures |z| == n && forall i :: 0 <= i < n ==> z[i] == 0
  {
    seq(n, _ => 0)
  }

  /** The pages needed to hold `elemNum` bytes, rounded up. */
  function PagesFor(elemNum: nat): (p: nat)
    ensures p * PageSize >= elemNum
    ensures p > 0 ==> (p - 1) * PageSize < elemNum
  {
    (elemNum + PageSize - 1) / PageSize
  }

  /**
   * The pages `load_memory` adds, as written: `ElemNum / kPageSize - MemPages`
   * when the recorded page count, rounded down, exceeds the current one.
   */
  function GrowthAsWritten(elemNum: nat, pages: nat): (g: nat)
    ensures g > 0 ==> (pages + g) * PageSize <= elemNum
    ensures elemNum < (pages + 1) * PageSize ==> g == 0
  {
    if elemNum / PageSize > pages then elemNum / PageSize - pages else 0
  }

  /** The pages the corrected `load_memory` adds: enough to hold `elemNum` bytes. */
  function Growth(elemNum: nat, pages: nat): (g: nat)
    ensures (pages + g) * PageSize >= elemNum
    ensures g > 0 ==> (pages + g - 1) * PageSize < elemNum
    ensures elemNum <= pages * PageSize ==> g == 0
  {
    if PagesFor(elemNum) > pages then PagesFor(elemNum) - pages else 0
  }

  /**
   * The bytes of a memory of `pages` pages holding `bytes` after the
   * corrected `load_memory` growth for `n` bytes: zero-extended by
   * `Growth(n, pages)` pages, so that the first `n` bytes fit.
   */
  function Grown(bytes: seq<bv8>, pages: nat, n: nat): (r: seq<bv8>)
    requires |bytes| == pages * PageSize
    ensures n <= |r| && |bytes| <= |r|
    ensures r[..|bytes|] == bytes && forall i :: |bytes| <= i < |r| ==> r[i] == 0
  {
    var g := Growth(n, pages);
    assert |bytes| + g * PageSize == (pages + g) * PageSize;
    bytes + Zeros(g * PageSize)
  }

  /**
   * For every count a save records, a whole number of pages, the corrected
   * growth is the growth as written: by `ElemNum / kPageSize - MemPages` pages
   * when that exceeds the current pages, and none otherwise.
   */
  lemma GrowthOnWholePages(elemNum: nat, pages: nat)
    requires elemNum % PageSize == 0
    ensures Growth(elemNum, pages) == GrowthAsWritten(elemNum, pages)
    ensures elemNum / PageSize > pages ==> Growth(elemNum, pages) == elemNum / PageSize - pages
    ensures elemNum / PageSize <= pages ==> Growth(elemNum, pages) == 0
  {
    assert PagesFor(elemNum) == elemNum / PageSize;
  }

  /**
   * As written, a recorded count that is not a whole number of pages leaves
   * the memory smaller than the count: 65537 bytes into a one-page memory
   * adds no page.
   */
  lemma GrowthAsWrittenFallsShort()
    ensures GrowthAsWritten(PageSize + 1, 1) == 0
    ensures (1 + GrowthAsWritten(PageSize + 1, 1)) * PageSize < PageSize + 1
  {
  }

  /** A memory instance: `getLimit().getMin()` pages and `getDataPtr()`. */
  class MemoryInstance {
    var pages: nat
    var data: array<bv8>

    ghost predicate Valid()
      reads this
    {
      data.Length == pages * PageSize
    }

    /** `addMemory`: a memory of `pages` zeroed pages. */
    constructor (pages: nat)
      ensures Valid() && this.pages == pages && fresh(data)
      ensures data[..] == Zeros(pages * PageSize)
    {
      this.pages := pages;
      data := new bv8[pages * PageSize](_ => 0);
    }

    /** `growPage(n)`: n more pages; existing bytes kept, new bytes zero. */
    method GrowPage(n: nat)
      requires Valid()
      modifies this
      ensures Valid() && pages == old(pages) + n && fresh(data)
      ensures data[..] == old(data[..]) + Zeros(n * PageSize)
    {
      var prev := data[..];
      var len := (pages + n) * PageSize;
      data := new bv8[len]((i: nat) => if i < |prev| then prev[i] else 0);
      pages := pages + n;
      assert data[..] == prev + Zeros(n * PageSize);
    }
  }
}
