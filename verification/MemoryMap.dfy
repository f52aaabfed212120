/**
  UEFI memory maps as values: which descriptors are usable, which pages are
  browsable, and the order-theoretic meaning of page navigation.
 */
module MemoryMap {
  import opened Words

  datatype Option<+T> = None | Some(value: T)

  /** The part of EFI_MEMORY_DESCRIPTOR (section 7.2 of UEFI Specification 2.11) the tool reads. */
  datatype Descriptor = Descriptor(memType: u32, start: u64, pages: u64, attribute: u64)

  const EfiLoaderCode: u32 := 1
  const EfiConventionalMemory: u32 := 7
  const EfiACPIReclaimMemory: u32 := 9
  const EfiACPIMemoryNVS: u32 := 10
  const EfiMemoryMappedIO: u32 := 11
  const EfiMemoryMappedIOPortSpace: u32 := 12

  /** Loader, boot services, runtime services and conventional memory. */
  predicate WritableType(t: u32) {
    EfiLoaderCode <= t <= EfiConventionalMemory
  }

  predicate ReadableType(t: u32) {
    WritableType(t) || t == EfiACPIReclaimMemory || t == EfiACPIMemoryNVS
  }

  predicate BrowsableType(t: u32) {
    ReadableType(t) || t == EfiMemoryMappedIO || t == EfiMemoryMappedIOPortSpace
  }

  /** The descriptor is not empty and ends strictly below 2^64. */
  predicate Sized(d: Descriptor) {
    d.pages != 0 && d.pages <= MAX_UINT64 / PAGE_SHIFT_SIZE &&
    d.start <= MAX_UINT64 - d.pages * PAGE_SHIFT_SIZE
  }

  function End(d: Descriptor): nat {
    d.start + d.pages * PAGE_SHIFT_SIZE
  }

  predicate Usable(d: Descriptor) {
    BrowsableType(d.memType) && Sized(d)
  }

  predicate Covers(d: Descriptor, address: int, length: int) {
    d.start <= address && address + length <= End(d)
  }

  /** The range lies inside one browsable descriptor. */
  predicate PageOk(ds: seq<Descriptor>, page: int, size: int) {
    exists i :: 0 <= i < |ds| && Usable(ds[i]) && Covers(ds[i], page, size)
  }

  /** The pages a user can visit: aligned and inside one browsable descriptor. */
  predicate ValidPage(ds: seq<Descriptor>, p: nat, page: int)
    requires p > 0
  {
    page % p == 0 && PageOk(ds, page, p)
  }

  /** No page count exceeds the number of 4 KiB frames of the address space. */
  predicate PagesFit(ds: seq<Descriptor>) {
    forall i :: 0 <= i < |ds| ==> ds[i].pages < 0x10_0000_0000_0000
  }

  /** Descriptors of section 7.2: whole 4 KiB frames inside the address space. */
  predicate WellFormed(ds: seq<Descriptor>) {
    PagesFit(ds) && forall i :: 0 <= i < |ds| ==> ds[i].start % PAGE_SHIFT_SIZE == 0
  }

  predicate Overlap(d: Descriptor, e: Descriptor) {
    d.start < End(e) && e.start < End(d)
  }

  predicate Disjoint(ds: seq<Descriptor>) {
    forall i, j :: 0 <= i < j < |ds| && Sized(ds[i]) && Sized(ds[j]) ==> !Overlap(ds[i], ds[j])
  }

  lemma ValidPageFits(ds: seq<Descriptor>, p: nat, page: int)
    requires p > 0 && ValidPage(ds, p, page)
    ensures 0 <= page && page + p <= MAX_UINT64
  {
  }

  // ---------------------------------------------------------------- navigation

  /** Reference search: look at every page in turn, upwards from `q`. */
  function ScanUp(ds: seq<Descriptor>, p: nat, q: nat): Option<nat>
    requires p > 0
    decreases TWO64 - q
  {
    if q + p > MAX_UINT64 then None
    else if PageOk(ds, q, p) then Some(q)
    else ScanUp(ds, p, q + p)
  }

  /** Reference search: look at every page in turn, downwards from `q`. */
  function ScanDown(ds: seq<Descriptor>, p: nat, q: nat): Option<nat>
    requires p > 0
  {
    if PageOk(ds, q, p) then Some(q)
    else if q < p then None
    else ScanDown(ds, p, q - p)
  }

  /** The page after `cur`, or `cur` itself when there is none. */
  function NextPage(ds: seq<Descriptor>, p: nat, cur: nat): nat
    requires p > 0
  {
    match ScanUp(ds, p, cur + p)
    case Some(q) => q
    case None => cur
  }

  /** The page before `cur`, or `cur` itself when there is none. */
  function PrevPage(ds: seq<Descriptor>, p: nat, cur: nat): nat
    requires p > 0
  {
    if cur < p then cur else
    match ScanDown(ds, p, cur - p)
    case Some(q) => q
    case None => cur
  }

  /** `r` is the least valid page above `cur`, or `cur` when no valid page is above it. */
  ghost predicate IsSuccessor(ds: seq<Descriptor>, p: nat, cur: nat, r: int)
    requires p > 0
  {
    if r == cur then forall x :: cur < x ==> !ValidPage(ds, p, x)
    else cur < r && ValidPage(ds, p, r) && forall x :: cur < x < r ==> !ValidPage(ds, p, x)
  }

  /** `r` is the greatest valid page below `cur`, or `cur` when no valid page is below it. */
  ghost predicate IsPredecessor(ds: seq<Descriptor>, p: nat, cur: nat, r: int)
    requires p > 0
  {
    if r == cur then forall x :: 0 <= x < cur ==> !ValidPage(ds, p, x)
    else 0 <= r < cur && ValidPage(ds, p, r) && forall x :: r < x < cur ==> !ValidPage(ds, p, x)
  }

  lemma {:induction false} ScanUpFindsLeast(ds: seq<Descriptor>, p: nat, q: nat)
    requires p > 0 && q % p == 0
    ensures var s := ScanUp(ds, p, q);
            if s.None? then forall x :: q <= x ==> !ValidPage(ds, p, x)
            else q <= s.value && ValidPage(ds, p, s.value) &&
                 forall x :: q <= x < s.value ==> !ValidPage(ds, p, x)
    decreases TWO64 - q
  {
    if q + p <= MAX_UINT64 && !PageOk(ds, q, p) {
      MultipleStep(q, p);
      ScanUpFindsLeast(ds, p, q + p);
      forall x | q < x < q + p
        ensures !ValidPage(ds, p, x)
      {
        if x % p == 0 {
          MultipleGap(q, x, p);
        }
      }
    }
  }

  lemma {:induction false} ScanDownFindsGreatest(ds: seq<Descriptor>, p: nat, q: nat)
    requires p > 0 && q % p == 0
    ensures var s := ScanDown(ds, p, q);
            if s.None? then forall x :: 0 <= x <= q ==> !ValidPage(ds, p, x)
            else s.value <= q && ValidPage(ds, p, s.value) &&
                 forall x :: s.value < x <= q ==> !ValidPage(ds, p, x)
  {
    if !PageOk(ds, q, p) {
      if q < p {
        forall x | 0 <= x < q
          ensures !ValidPage(ds, p, x)
        {
          if x % p == 0 {
            MultipleGap(x, q, p);
          }
        }
      } else {
        MultipleStep(q, p);
        ScanDownFindsGreatest(ds, p, q - p);
        forall x | q - p < x < q
          ensures !ValidPage(ds, p, x)
        {
          if x % p == 0 {
            MultipleGap(x, q, p);
          }
        }
      }
    }
  }

  /** The reference search upwards meets the order-theoretic definition, and only its result does. */
  lemma NextPageIsSuccessor(ds: seq<Descriptor>, p: nat, cur: nat)
    requires p > 0 && cur % p == 0
    ensures IsSuccessor(ds, p, cur, NextPage(ds, p, cur))
    ensures forall r :: IsSuccessor(ds, p, cur, r) ==> r == NextPage(ds, p, cur)
  {
    MultipleStep(cur, p);
    ScanUpFindsLeast(ds, p, cur + p);
    forall x | cur < x < cur + p
      ensures !ValidPage(ds, p, x)
    {
      if x % p == 0 {
        MultipleGap(cur, x, p);
      }
    }
    forall r | IsSuccessor(ds, p, cur, r)
      ensures r == NextPage(ds, p, cur)
    {
      var n := NextPage(ds, p, cur);
      if r != cur && n != cur {
        assert ValidPage(ds, p, r) && ValidPage(ds, p, n);
      }
    }
  }

  lemma PrevPageIsPredecessor(ds: seq<Descriptor>, p: nat, cur: nat)
    requires p > 0 && cur % p == 0
    ensures IsPredecessor(ds, p, cur, PrevPage(ds, p, cur))
    ensures forall r :: IsPredecessor(ds, p, cur, r) ==> r == PrevPage(ds, p, cur)
  {
    MultipleStep(cur, p);
    if cur >= p {
      ScanDownFindsGreatest(ds, p, cur - p);
    }
    forall x | 0 <= x && cur - p < x < cur
      ensures !ValidPage(ds, p, x)
    {
      if x % p == 0 {
        MultipleGap(x, cur, p);
      }
    }
    forall r | IsPredecessor(ds, p, cur, r)
      ensures r == PrevPage(ds, p, cur)
    {
      var n := PrevPage(ds, p, cur);
      if r != cur && n != cur {
        assert ValidPage(ds, p, r) && ValidPage(ds, p, n);
      }
    }
  }

  /** Going to the next page and back returns to where one started, and conversely. */
  lemma NextThenPrevious(ds: seq<Descriptor>, p: nat, page: nat)
    requires p > 0 && ValidPage(ds, p, page)
    ensures NextPage(ds, p, page) != page ==> PrevPage(ds, p, NextPage(ds, p, page)) == page
    ensures PrevPage(ds, p, page) != page ==> NextPage(ds, p, PrevPage(ds, p, page)) == page
  {
    NextPageIsSuccessor(ds, p, page);
    PrevPageIsPredecessor(ds, p, page);
    var n, b := NextPage(ds, p, page), PrevPage(ds, p, page);
    if n != page {
      PrevPageIsPredecessor(ds, p, n);
      assert IsPredecessor(ds, p, n, page);
    }
    if b != page {
      NextPageIsSuccessor(ds, p, b);
      assert IsSuccessor(ds, p, b, page);
    }
  }

  // --------------------------------------------------------------- enumeration

  /** The least start of a usable descriptor among the first `n`, or `MAX_UINT64`. */
  function LeastStart(ds: seq<Descriptor>, n: nat): u64
    requires n <= |ds|
  {
    if n == 0 then MAX_UINT64
    else
      var m := LeastStart(ds, n - 1);
      if Usable(ds[n - 1]) && ds[n - 1].start < m then ds[n - 1].start else m
  }

  function FirstValid(ds: seq<Descriptor>): u64 {
    var m := LeastStart(ds, |ds|);
    if m == MAX_UINT64 then 0 else m
  }

  predicate HasUsable(ds: seq<Descriptor>) {
    exists i :: 0 <= i < |ds| && Usable(ds[i])
  }

  lemma {:induction false} LeastStartIsLeast(ds: seq<Descriptor>, n: nat)
    requires n <= |ds|
    ensures forall i :: 0 <= i < n && Usable(ds[i]) ==> LeastStart(ds, n) <= ds[i].start
    ensures LeastStart(ds, n) != MAX_UINT64 ==>
              exists i :: 0 <= i < n && Usable(ds[i]) && ds[i].start == LeastStart(ds, n)
  {
    if n == 0 {
    } else {
      LeastStartIsLeast(ds, n - 1);
    }
  }

  /** A frame boundary is a page boundary for every page size up to a frame. */
  lemma FrameAligned(start: nat, p: nat)
    requires IsPow2(p) && p <= PAGE_SHIFT_SIZE && start % PAGE_SHIFT_SIZE == 0
    ensures p > 0 && start % p == 0
  {
    Pow2Values();
    assert PAGE_SHIFT_SIZE == Pow2(12) by {
      Pow2Add(8, 4);
      assert Pow2(4) == 16;
    }
    Pow2Divides(p, PAGE_SHIFT_SIZE);
    MultipleTrans(start, PAGE_SHIFT_SIZE, p);
  }

  /** On a map of whole frames the first valid address is the least valid page. */
  lemma FirstValidIsLeastPage(ds: seq<Descriptor>, p: nat)
    requires IsPow2(p) && p <= PAGE_SHIFT_SIZE && WellFormed(ds)
    ensures p > 0
    ensures HasUsable(ds) ==> ValidPage(ds, p, FirstValid(ds))
    ensures forall x :: ValidPage(ds, p, x) ==> FirstValid(ds) <= x
    ensures !HasUsable(ds) ==> FirstValid(ds) == 0 && forall x :: !ValidPage(ds, p, x)
  {
    LeastStartIsLeast(ds, |ds|);
    Pow2Values();
    FrameAligned(0, p);
    if HasUsable(ds) {
      var k :| 0 <= k < |ds| && Usable(ds[k]);
      var i :| 0 <= i < |ds| && Usable(ds[i]) && ds[i].start == LeastStart(ds, |ds|);
      FrameAligned(ds[i].start, p);
      assert Covers(ds[i], ds[i].start, p);
    }
  }

  /** Iterate "next page" from `cur` until it no longer moves. */
  function Walk(ds: seq<Descriptor>, p: nat, cur: nat): seq<nat>
    requires p > 0 && cur % p == 0 && cur < TWO64
    decreases TWO64 - cur
  {
    NextPageIsSuccessor(ds, p, cur);
    var n := NextPage(ds, p, cur);
    if n == cur then [cur] else ValidPageFits(ds, p, n); [cur] + Walk(ds, p, n)
  }

  /**
    From a valid page the walk lists exactly the valid pages that are not below it,
    each once and in increasing order, and stops where "next page" is a fixpoint.
   */
  lemma {:induction false} WalkEnumerates(ds: seq<Descriptor>, p: nat, cur: nat)
    requires p > 0 && ValidPage(ds, p, cur) && cur < TWO64
    ensures var w := Walk(ds, p, cur);
            && |w| > 0 && w[0] == cur
            && (forall x: nat :: x in w <==> cur <= x && ValidPage(ds, p, x))
            && (forall i, j :: 0 <= i < j < |w| ==> w[i] < w[j])
            && NextPage(ds, p, w[|w| - 1]) == w[|w| - 1]
    decreases TWO64 - cur
  {
    NextPageIsSuccessor(ds, p, cur);
    var n := NextPage(ds, p, cur);
    if n != cur {
      ValidPageFits(ds, p, n);
      WalkEnumerates(ds, p, n);
      var t := Walk(ds, p, n);
      assert Walk(ds, p, cur) == [cur] + t;
      assert forall i :: 0 <= i < |t| ==> t[i] in t;
    } else {
      assert Walk(ds, p, cur) == [cur];
    }
  }

  /** Started at the first valid address, repeated "next page" visits every valid page exactly once. */
  lemma TourVisitsEveryPage(ds: seq<Descriptor>, p: nat)
    requires IsPow2(p) && p <= PAGE_SHIFT_SIZE && WellFormed(ds) && HasUsable(ds)
    ensures p > 0 && ValidPage(ds, p, FirstValid(ds))
    ensures var w := Walk(ds, p, FirstValid(ds));
            && (forall x: nat :: x in w <==> ValidPage(ds, p, x))
            && (forall i, j :: 0 <= i < j < |w| ==> w[i] < w[j])
            && |w| > 0 && NextPage(ds, p, w[|w| - 1]) == w[|w| - 1]
  {
    FirstValidIsLeastPage(ds, p);
    WalkEnumerates(ds, p, FirstValid(ds));
  }

  // ------------------------------------------------ candidates of one descriptor

  /** The first multiple of `p` inside a descriptor. */
  function FirstCandidate(start: nat, p: nat): nat
    requires p > 0
  {
    var f := Floor(start, p);
    if f < start then f + p else f
  }

  lemma FirstCandidateIsLeast(start: nat, p: nat)
    requires p > 0
    ensures var c := FirstCandidate(start, p);
            c % p == 0 && start <= c < start + p &&
            forall x: int :: start <= x && x % p == 0 ==> c <= x
  {
    var f, c := Floor(start, p), FirstCandidate(start, p);
    FloorBounds(start, p);
    MultipleStep(f, p);
    forall x: int | start <= x && x % p == 0
      ensures c <= x
    {
      if x < c {
        MultipleGap(x, c, p);
      }
    }
  }

  /** The last multiple of `p` after which a whole page still fits below `end`. */
  lemma LastCandidateIsGreatest(end: nat, p: nat)
    requires 0 < p <= end
    ensures var c := Floor(end - p, p);
            c % p == 0 && c + p <= end &&
            forall x: int :: x + p <= end && x % p == 0 ==> x <= c
  {
    var c := Floor(end - p, p);
    FloorBounds(end - p, p);
    forall x: int | x + p <= end && x % p == 0
      ensures x <= c
    {
      if c < x {
        MultipleGap(c, x, p);
      }
    }
  }

  /**
    Why one candidate per descriptor is enough: a descriptor that holds a valid page
    above `next` either starts its pages at or above `next`, or makes `next` itself valid.
   */
  lemma FirstCandidateSuffices(ds: seq<Descriptor>, i: nat, p: nat, next: nat, x: int)
    requires p > 0 && i < |ds| && Usable(ds[i]) && Covers(ds[i], x, p)
    requires next % p == 0 && x % p == 0 && next <= x && !PageOk(ds, next, p)
    ensures var c := FirstCandidate(ds[i].start, p);
            next <= c <= x && Covers(ds[i], c, p)
  {
    var c := FirstCandidate(ds[i].start, p);
    FirstCandidateIsLeast(ds[i].start, p);
    assert !Covers(ds[i], next, p);
    if c < next {
      MultipleGap(c, next, p);
    }
  }

  /** The mirror image for "previous": clipping the last candidate at `prev` loses nothing. */
  lemma LastCandidateSuffices(ds: seq<Descriptor>, i: nat, p: nat, prev: nat, x: int)
    requires p > 0 && i < |ds| && Usable(ds[i]) && Covers(ds[i], x, p)
    requires prev % p == 0 && x % p == 0 && 0 <= x <= prev && !PageOk(ds, prev, p)
    ensures p <= End(ds[i])
    ensures var c := Floor(End(ds[i]) - p, p);
            x <= c < prev && Covers(ds[i], c, p)
  {
    var c := Floor(End(ds[i]) - p, p);
    LastCandidateIsGreatest(End(ds[i]), p);
    assert !Covers(ds[i], prev, p);
  }
}
