/**
 * Address helpers, the access-observation filter and the probe-listener
 * dispatch of the base prefetcher (src/mem/cache/prefetch/base.cc).
 *
 * Addresses are `uint64_t`; the block size and the page size are powers of
 * two, given here by their base-2 logarithms (`lBlkSize` is the source's
 * `floorLog2(blkSize)`). A mask with the low bits cleared is modelled as
 * rounding down to a multiple of the power of two, and `>>`/`<<` by `l` as
 * division/multiplication by 2^l.
 */
module PrefetchBase {
  import opened Arith

  /** The source's `a & ~(blkSize - 1)`: clear the offset bits of a block. */
  function BlockAddress(a: nat, lBlkSize: nat): (r: nat)
    ensures r <= a < r + Pow2(lBlkSize)
    ensures r % Pow2(lBlkSize) == 0
  {
    var b := Pow2(lBlkSize);
    DivFacts(a, b);
    MultipleMod(a / b, b);
    (a / b) * b
  }

  /** The source's `a >> lBlkSize`. */
  function BlockIndex(a: nat, lBlkSize: nat): (r: nat)
    ensures r * Pow2(lBlkSize) <= a < (r + 1) * Pow2(lBlkSize)
  {
    DivFacts(a, Pow2(lBlkSize));
    a / Pow2(lBlkSize)
  }

  /** Shifting the block index back up gives the block address. */
  lemma BlockIndexShiftBack(a: nat, lBlkSize: nat)
    ensures BlockIndex(a, lBlkSize) * Pow2(lBlkSize) == BlockAddress(a, lBlkSize)
  {
  }

  /** Rounding an address that is already block-aligned changes nothing. */
  lemma BlockAddressIdempotent(a: nat, lBlkSize: nat)
    ensures BlockAddress(BlockAddress(a, lBlkSize), lBlkSize) == BlockAddress(a, lBlkSize)
  {
    var b := Pow2(lBlkSize);
    var r := BlockAddress(a, lBlkSize);
    DivModUnique(r, b, r / b, 0);
  }

  /** The block address is the unique multiple of the block size within one block below a. */
  lemma BlockAddressUnique(a: nat, lBlkSize: nat, r: nat)
    requires r % Pow2(lBlkSize) == 0 && r <= a < r + Pow2(lBlkSize)
    ensures r == BlockAddress(a, lBlkSize)
  {
    var b := Pow2(lBlkSize);
    DivModUnique(r, b, r / b, 0);
    DivModUnique(a, b, r / b, a - r);
  }

  /** gem5's `roundDown(a, pageBytes)` for a power-of-two page size. */
  function PageAddress(a: nat, lPageBytes: nat): (r: nat)
    ensures r % Pow2(lPageBytes) == 0 && r <= a
  {
    BlockAddress(a, lPageBytes)
  }

  /** The source's `a & (pageBytes - 1)`. */
  function PageOffset(a: nat, lPageBytes: nat): (r: nat)
    ensures r < Pow2(lPageBytes)
  {
    a % Pow2(lPageBytes)
  }

  /** An address splits into its page and its offset within the page. */
  lemma PageSplit(a: nat, lPageBytes: nat)
    ensures PageAddress(a, lPageBytes) + PageOffset(a, lPageBytes) == a
    ensures PageOffset(a, lPageBytes) < Pow2(lPageBytes)
  {
    var p := Pow2(lPageBytes);
    assert a == (a / p) * p + a % p;
  }

  predicate SamePage(a: nat, b: nat, lPageBytes: nat)
  {
    PageAddress(a, lPageBytes) == PageAddress(b, lPageBytes)
  }

  /** Being on the same page is an equivalence, and it means sharing a page-aligned window. */
  lemma SamePageIsEquivalence(a: nat, b: nat, c: nat, lPageBytes: nat)
    ensures SamePage(a, a, lPageBytes)
    ensures SamePage(a, b, lPageBytes) <==> SamePage(b, a, lPageBytes)
    ensures SamePage(a, b, lPageBytes) && SamePage(b, c, lPageBytes) ==> SamePage(a, c, lPageBytes)
    ensures SamePage(a, b, lPageBytes) <==> a / Pow2(lPageBytes) == b / Pow2(lPageBytes)
  {
    var p := Pow2(lPageBytes);
    if a / p == b / p {
    } else if SamePage(a, b, lPageBytes) {
      assert (a / p) * p == (b / p) * p;
      DivModUnique((a / p) * p, p, a / p, 0);
      DivModUnique((b / p) * p, p, b / p, 0);
    }
  }

  /**
   * `page + (blockIndex << lBlkSize)`: `blockIndex` is a `uint32_t`, so the
   * shift is computed in 32 bits before it is added to the 64-bit address.
   */
  function PageIthBlockAddress(page: nat, blockIndex: nat, lBlkSize: nat): (r: nat)
    requires page < U64 && blockIndex < U32
    ensures r < U64
    ensures blockIndex * Pow2(lBlkSize) < U32 && page + blockIndex * Pow2(lBlkSize) < U64 ==>
              r == page + blockIndex * Pow2(lBlkSize)
  {
    var shifted := (blockIndex * Pow2(lBlkSize)) % U32;
    (page + shifted) % U64
  }

  /** The i-th block of a block-aligned page is itself block-aligned when no wrap occurs. */
  lemma PageIthBlockAligned(page: nat, blockIndex: nat, lBlkSize: nat)
    requires page < U64 && blockIndex < U32
    requires page % Pow2(lBlkSize) == 0
    requires blockIndex * Pow2(lBlkSize) < U32 && page + blockIndex * Pow2(lBlkSize) < U64
    ensures PageIthBlockAddress(page, blockIndex, lBlkSize) % Pow2(lBlkSize) == 0
  {
    var b := Pow2(lBlkSize);
    var k := page / b;
    DivFacts(page, b);
    assert page == k * b;
    Distribute(k, blockIndex, b);
    MultipleMod(k + blockIndex, b);
  }

  /** The packet attributes `observeAccess` looks at. `hasBeenPrefetched` is the cache's answer for the packet's block. */
  datatype Access = Access(
    miss: bool,
    instFetch: bool,
    read: bool,
    invalidate: bool,
    uncacheable: bool,
    cleanEvict: bool,
    hasBeenPrefetched: bool)

  /** The prefetcher's configuration flags. */
  datatype ObserveConfig = ObserveConfig(
    onMiss: bool,
    onRead: bool,
    onWrite: bool,
    onData: bool,
    onInst: bool,
    prefetchOnAccess: bool,
    prefetchOnPfHit: bool)

  /** The kinds of access the configuration admits, stated as one condition. */
  predicate AdmittedKind(c: ObserveConfig, p: Access)
  {
    && !p.uncacheable
    && !p.cleanEvict
    && (if p.instFetch then c.onInst
        else c.onData && (if p.read then c.onRead else c.onWrite && !p.invalidate))
  }

  /** Whether the prefetcher is notified of an access (`Base::observeAccess`). */
  function ObserveAccess(c: ObserveConfig, p: Access): (r: bool)
    // on a hit with prefetch-on-prefetch-hit, only the prefetched status decides
    ensures !p.miss && c.prefetchOnPfHit ==> r == p.hasBeenPrefetched
    // otherwise the access must be admitted and, with on_miss, be a miss
    ensures !(!p.miss && c.prefetchOnPfHit) ==>
              (r <==> (p.miss || c.prefetchOnAccess) && AdmittedKind(c, p) && (c.onMiss ==> p.miss))
  {
    var fetch := p.instFetch;
    var read := p.read;
    var inv := p.invalidate;
    if !p.miss && c.prefetchOnPfHit then p.hasBeenPrefetched
    else if !p.miss && !c.prefetchOnAccess then false
    else if p.uncacheable then false
    else if fetch && !c.onInst then false
    else if !fetch && !c.onData then false
    else if !fetch && read && !c.onRead then false
    else if !fetch && !read && !c.onWrite then false
    else if !fetch && !read && inv then false
    else if p.cleanEvict then false
    else if c.onMiss then p.miss
    else true
  }

  /** Each listed reason to ignore an access, one by one. */
  lemma ObserveAccessRejects(c: ObserveConfig, p: Access)
    requires p.miss || !c.prefetchOnPfHit
    ensures !p.miss && !c.prefetchOnAccess ==> !ObserveAccess(c, p)
    ensures p.uncacheable ==> !ObserveAccess(c, p)
    ensures p.cleanEvict ==> !ObserveAccess(c, p)
    ensures c.onMiss ==> (ObserveAccess(c, p) ==> p.miss)
  {
  }

  /** The handler a probe listener forwards a packet to. */
  datatype Handler = L1Request | L1Response | Fill | Probe

  /** `PrefetchListener::notify`: the first flag that is set decides. */
  function ListenerHandler(l1Req: bool, l1Resp: bool, isFill: bool): (h: Handler)
    ensures h == L1Request <==> l1Req
    ensures h == L1Response <==> !l1Req && l1Resp
    ensures h == Fill <==> !l1Req && !l1Resp && isFill
    ensures h == Probe <==> !l1Req && !l1Resp && !isFill
  {
    if l1Req then L1Request
    else if l1Resp then L1Response
    else if isFill then Fill
    else Probe
  }
}
