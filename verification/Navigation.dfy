/**
  What the core's navigation loops compute on any map: where they meet the reference
  navigation, and where an entry at the very end of the address space shadows it.
 */
module Navigation {
  import opened Words
  import opened MemoryMap
  import opened NexusMemLib
  import opened AddressMap

  // ------------------------------------------------------------ pages and bounds

  lemma TopGap(page: u64, p: u64)
    requires IsPow2(p) && page % p == 0
    ensures page + p <= TWO64
  {
    TopIsBoundary(p);
    MultipleGap(page, TWO64, p);
  }

  /** The end of the address space is a page boundary, and so is the start of the topmost page. */
  lemma TopIsBoundary(p: u64)
    requires IsPow2(p)
    ensures p > 0 && TWO64 % p == 0 && (TWO64 - p) % p == 0 && (TWO64 - 2 * p) % p == 0
  {
    Pow2Values();
    var k: nat :| k < 64 && p == Pow2(k);
    Pow2Add(k, 64 - k);
    DivisionUnique(TWO64, p, Pow2(64 - k), 0);
    MultipleStep(TWO64, p);
    MultipleStep(TWO64 - p, p);
  }

  lemma TopPageIsInvalid(ds: seq<Descriptor>, page: int, p: int)
    requires page + p == TWO64
    ensures !PageOk(ds, page, p)
  {
    BeyondTheEnd(ds, page, p);
  }

  /** A page that starts inside a descriptor of whole frames lies inside it. */
  lemma WholePages(d: Descriptor, p: u64, page: u64)
    requires IsPow2(p) && p <= 2048 && d.start % PAGE_SHIFT_SIZE == 0
    requires page % p == 0 && d.start <= page < End(d)
    ensures Covers(d, page, p)
  {
    FrameAligned(End(d), p);
    MultipleGap(page, End(d), p);
  }

  /** A valid adjacent page is the answer on its side. */
  lemma AdjacentNext(ds: seq<Descriptor>, p: nat, cur: nat)
    requires p > 0 && cur % p == 0 && PageOk(ds, cur + p, p)
    ensures NextPage(ds, p, cur) == cur + p
  {
    MultipleStep(cur, p);
    assert ValidPage(ds, p, cur + p);
    NextPageIsSuccessor(ds, p, cur);
    var n := NextPage(ds, p, cur);
    hide NextPage;
    if cur < n < cur + p {
      MultipleGap(cur, n, p);
    }
  }

  lemma AdjacentPrevious(ds: seq<Descriptor>, p: nat, cur: nat)
    requires 0 < p <= cur && cur % p == 0 && PageOk(ds, cur - p, p)
    ensures PrevPage(ds, p, cur) == cur - p
  {
    MultipleStep(cur, p);
    assert ValidPage(ds, p, cur - p);
    PrevPageIsPredecessor(ds, p, cur);
    var b := PrevPage(ds, p, cur);
    hide PrevPage;
    if cur - p < b < cur {
      MultipleGap(b, cur, p);
    }
  }

  /** No valid page starts in the last two pages' worth of addresses. */
  lemma NothingAbove(ds: seq<Descriptor>, p: nat, cur: nat)
    requires p > 0 && cur % p == 0 && cur + 2 * p > MAX_UINT64
    ensures NextPage(ds, p, cur) == cur
  {
    forall x | ValidPage(ds, p, x)
      ensures x <= cur
    {
      ValidPageFits(ds, p, x);
      if x > cur {
        StepFits(cur, x, p);
      }
    }
    NextPageIsSuccessor(ds, p, cur);
  }

  lemma StepFits(a: int, b: int, p: int)
    requires p > 0 && a % p == 0 && b % p == 0 && a < b
    ensures a + 2 * p <= b + p
  {
    MultipleGap(a, b, p);
  }

  /** A descriptor that reaches a page at or below an invalid `prev` ends its pages strictly below it, and not at 0. */
  lemma LastPageIsNotZero(ds: seq<Descriptor>, i: nat, p: nat, prev: nat)
    requires i < |ds| && IsPow2(p) && p <= 2048
    requires prev % p == 0 && !PageOk(ds, prev, p) && Offers(ds[i], p, prev)
    ensures var c := Floor(End(ds[i]) - p, p); 0 < c < prev && ClippedLast(ds[i], p, prev) == c
  {
    var d := ds[i];
    FirstCandidateIsLeast(d.start, p);
    LastCandidateSuffices(ds, i, p, prev, FirstCandidate(d.start, p)) by {
      LastCandidateIsGreatest(End(d), p);
      assert !Covers(d, prev, p);
    }
    FrameAligned(0, p);
    LastCandidateIsGreatest(End(d), p);
    MultipleStep(0, p);
  }

  // -------------------------------------------------- one entry, wherever it lies

  /** The entry starts so late that rounding its start up to a page wraps to 0, and its end holds a page. */
  predicate HighEntry(c: NxDescriptor, p: u64)
  {
    NxBrowsable(c.nxType) && c.pages != 0 && c.start + p > TWO64 && p <= LoopEnd(c)
  }

  predicate NoHighEntries(cs: seq<NxDescriptor>, p: u64) {
    forall i :: 0 <= i < |cs| ==> !HighEntry(cs[i], p)
  }

  /** No browsable entry starts in the last two pages. */
  predicate LowStarts(cs: seq<NxDescriptor>, p: u64) {
    forall i :: 0 <= i < |cs| && NxBrowsable(cs[i].nxType) && cs[i].pages != 0 ==> cs[i].start + 2 * p <= TWO64
  }

  /** On whole frames no entry starts that late. */
  lemma WholeFramesAreLow(cs: seq<NxDescriptor>, p: u64)
    requires WellFormed(LiftMap(cs)) && p <= 2048
    ensures LowStarts(cs, p) && NoHighEntries(cs, p)
  {
    forall i | 0 <= i < |cs|
      ensures cs[i].start + PAGE_SHIFT_SIZE <= TWO64
    {
      assert LiftMap(cs)[i].start == cs[i].start;
    }
  }

  lemma WholeFramesDoNotWrap(cs: seq<NxDescriptor>)
    requires PagesFit(LiftMap(cs))
    ensures WrapsAreHarmless(cs)
  {
    forall i | 0 <= i < |cs|
      ensures !ShiftWraps(cs[i])
    {
      assert LiftMap(cs)[i].pages == cs[i].pages;
    }
  }

  /** The end the loops compute is the true end when the shifted entry fits, and not above the start otherwise. */
  lemma UncheckedEnd(c: NxDescriptor)
    ensures if Sized(Shifted(c)) then LoopEnd(c) == End(Shifted(c)) && c.start + PAGE_SHIFT_SIZE <= LoopEnd(c)
            else LoopEnd(c) <= c.start
    ensures Sized(Shifted(c)) ==> c.pages != 0
  {
    ShiftedSize(c);
    hide Shl12;
  }

  /** The rounded-up start: the first page of the entry, unless it wraps. */
  lemma RoundedStart(start: u64, p: u64)
    requires IsPow2(p)
    ensures p > 0 && AlignedUp(start, p) % p == 0
    ensures start + p <= TWO64 ==> AlignedUp(start, p) == FirstCandidate(start, p) && start <= AlignedUp(start, p) <= TWO64 - p
    ensures start + 2 * p <= TWO64 ==> AlignedUp(start, p) <= TWO64 - 2 * p
    ensures start + p > TWO64 ==> AlignedUp(start, p) == 0
  {
    TopIsBoundary(p);
    hide IsPow2;
    AlignedUpIsAligned(start, p);
    if start + p <= TWO64 {
      FirstCandidateIsLeast(start, p);
      hide FirstCandidate;
      FloorUnique(start + p - 1, p, FirstCandidate(start, p));
    } else {
      assert 0 <= Wrap(start + (p - 1)) < p;
      SmallMod(0, p);
      FloorUnique(Wrap(start + (p - 1)), p, 0);
    }
  }

  /** What an entry contributes to the "next" loop when the adjacent page is not inside it. */
  lemma NextCandidateKinds(c: NxDescriptor, p: u64, cur: u64)
    requires IsPow2(p) && p <= 2048 && cur % p == 0 && cur + 2 * p < TWO64
    requires !(Usable(Shifted(c)) && Covers(Shifted(c), cur + p, p))
    ensures p > 0
    ensures HighEntry(c, p) ==>
              !Usable(Shifted(c)) &&
              NextCandidate(c, p, cur + p, cur) == if cur + 2 * p <= LoopEnd(c) then Some(cur + p) else None
    ensures !HighEntry(c, p) ==>
              var first, candidate := FirstCandidate(c.start, p), NextCandidate(c, p, cur + p, cur);
              if Usable(Shifted(c)) && cur + p <= first && Covers(Shifted(c), first, p) then
                candidate == Some(first) && first < TWO64 - p
              else candidate.None? || candidate == Some(TWO64 - p)
    ensures c.start + 2 * p <= TWO64 ==> NextCandidate(c, p, cur + p, cur) != Some(TWO64 - p)
  {
    RoundedStart(c.start, p);
    UncheckedEnd(c);
    TopIsBoundary(p);
    AdjacentPageIsBoundary(cur, p);
    hide IsPow2;
    hide AlignedUp;
    hide FirstCandidate;
    hide LoopEnd;
  }

  lemma AdjacentPageIsBoundary(cur: u64, p: u64)
    requires IsPow2(p) && cur % p == 0 && cur + 2 * p < TWO64
    ensures p > 0 && AlignedUp(cur + p, p) == cur + p && cur + 3 * p <= TWO64
  {
    IsPow2Positive(p);
    MultipleStep(cur, p);
    MultipleStep(cur + p, p);
    AlignedUpIsAligned(cur + p, p);
    TopGap(cur + 2 * p, p);
  }

  /** Where a high entry sends the "previous" loop. */
  function HighClip(c: NxDescriptor, p: u64, prev: nat): nat
    requires 0 < p <= LoopEnd(c)
  {
    var last := Floor(LoopEnd(c) - p, p);
    if prev < last then prev else last
  }

  /** What an entry contributes to the "previous" loop. */
  lemma PrevCandidateKinds(c: NxDescriptor, p: u64, cur: u64)
    requires IsPow2(p) && p <= 2048 && p <= cur && cur % p == 0
    ensures p > 0
    ensures HighEntry(c, p) ==>
              !Usable(Shifted(c)) && PrevCandidate(c, p, cur) == Some(HighClip(c, p, cur - p))
    ensures !HighEntry(c, p) ==>
              PrevCandidate(c, p, cur) ==
                if Offers(Shifted(c), p, cur - p) then Some(ClippedLast(Shifted(c), p, cur - p)) else None
  {
    RoundedStart(c.start, p);
    UncheckedEnd(c);
    hide IsPow2;
    hide AlignedUp;
    hide FirstCandidate;
    hide LoopEnd;
    var end, first := LoopEnd(c), AlignedUp(c.start, p);
    if p <= end {
      FlooredEnd(end, p);
      hide Floor;
      ClipAtPrevious(Floor(end - p, p), first, p, cur);
      if first + p > end {
        assert Floor(end - p, p) < first;
      }
    }
  }

  lemma FlooredEnd(end: nat, p: nat)
    requires 0 < p <= end
    ensures Floor(end - p, p) % p == 0 && Floor(end - p, p) + p <= end
    ensures forall first: nat :: first % p == 0 && first + p <= end ==> first <= Floor(end - p, p)
  {
    LastCandidateIsGreatest(end, p);
  }

  /** Whether a page interval reaches down to `prev`, in terms of the page after it. */
  lemma ClipAtPrevious(last: nat, first: nat, p: nat, cur: nat)
    requires p > 0 && last % p == 0 && first % p == 0 && cur % p == 0 && p <= cur
    ensures last < cur <==> last <= cur - p
    ensures first < cur <==> first <= cur - p
  {
    if last < cur {
      MultipleGap(last, cur, p);
    }
    if first < cur {
      MultipleGap(first, cur, p);
    }
  }

  // ------------------------------------------------------------- the "next" loop

  /** A high entry whose wrapped end reaches past the adjacent page. */
  predicate Reaches(c: NxDescriptor, p: u64, cur: u64) {
    HighEntry(c, p) && cur + 2 * p <= LoopEnd(c)
  }

  /** The best page of the loop with the sentinel of the scan; the topmost page, never valid, counts as none. */
  function ScanBest(best: u64, p: u64, cur: u64): u64 {
    if best == cur || best == TWO64 - p then MAX_UINT64 else best
  }

  lemma NextStepImproves(c: NxDescriptor, p: u64, cur: u64, best: u64)
    requires IsPow2(p) && p <= 2048 && cur % p == 0 && cur + 2 * p < TWO64 && cur <= best <= TWO64 - p
    requires !(Usable(Shifted(c)) && Covers(Shifted(c), cur + p, p)) && !Reaches(c, p, cur)
    ensures p > 0
    ensures var candidate := NextCandidate(c, p, cur + p, cur);
            var better := if candidate.Some? && (best == cur || candidate.value < best) then candidate.value else best;
            && cur <= better <= TWO64 - p
            && ScanBest(better, p, cur) == Improve(Shifted(c), p, cur + p, ScanBest(best, p, cur))
  {
    NextCandidateKinds(c, p, cur);
    hide NextCandidate;
    hide FirstCandidate;
    hide IsPow2;
    hide LoopEnd;
  }

  lemma NoneCovers(ds: seq<Descriptor>, i: nat, page: int, p: int)
    requires i < |ds| && !PageOk(ds, page, p)
    ensures !(Usable(ds[i]) && Covers(ds[i], page, p))
  {
  }

  lemma BestNextScansOn(cs: seq<NxDescriptor>, n: nat, p: u64, cur: u64)
    requires n < |cs| && IsPow2(p) && p <= 2048 && cur % p == 0 && cur + 2 * p < TWO64
    requires !PageOk(ShiftedMap(cs), cur + p, p) && !Reaches(cs[n], p, cur)
    requires p > 0 && cur <= BestNext(cs[..n], p, cur + p, cur) <= TWO64 - p
    requires NextScan(ShiftedMap(cs), n, p, cur + p, ScanBest(BestNext(cs[..n], p, cur + p, cur), p, cur))
    ensures var b := BestNext(cs[..n + 1], p, cur + p, cur);
            cur <= b <= TWO64 - p && NextScan(ShiftedMap(cs), n + 1, p, cur + p, ScanBest(b, p, cur))
  {
    hide NextCandidate;
    hide IsPow2;
    hide FirstCandidate;
    hide Improve;
    hide PageOk;
    hide Usable;
    hide Covers;
    hide NextScan;
    hide Reaches;
    var ds, b := ShiftedMap(cs), BestNext(cs[..n], p, cur + p, cur);
    BestNextStep(cs, n, p, cur + p, cur);
    hide BestNext;
    NoneCovers(ds, n, cur + p, p);
    NextStepImproves(cs[n], p, cur, b);
    NextScanStep(ds, n, p, cur + p, ScanBest(b, p, cur));
  }

  /** Where no high entry reaches past the adjacent page, the loop is the scan whose minimum is the successor. */
  lemma {:induction false} BestNextScans(cs: seq<NxDescriptor>, n: nat, p: u64, cur: u64)
    requires n <= |cs| && IsPow2(p) && p <= 2048 && cur % p == 0 && cur + 2 * p < TWO64
    requires !PageOk(ShiftedMap(cs), cur + p, p) && forall i :: 0 <= i < |cs| ==> !Reaches(cs[i], p, cur)
    ensures p > 0
    ensures var b := BestNext(cs[..n], p, cur + p, cur);
            cur <= b <= TWO64 - p && NextScan(ShiftedMap(cs), n, p, cur + p, ScanBest(b, p, cur))
  {
    IsPow2Positive(p);
    hide PageOk;
    hide NextCandidate;
    hide Reaches;
    if n == 0 {
      assert BestNext(cs[..0], p, cur + p, cur) == cur;
    } else {
      hide NextScan;
      hide BestNext;
      BestNextScans(cs, n - 1, p, cur);
      BestNextScansOn(cs, n - 1, p, cur);
    }
  }

  /** Then the loop finds the successor; without one it stays, or offers the topmost page. */
  lemma BestNextIsSuccessor(cs: seq<NxDescriptor>, p: u64, cur: u64)
    requires IsPow2(p) && p <= 2048 && cur % p == 0 && cur + 2 * p < TWO64
    requires !PageOk(ShiftedMap(cs), cur + p, p) && forall i :: 0 <= i < |cs| ==> !Reaches(cs[i], p, cur)
    ensures p > 0
    ensures var b := BestNext(cs, p, cur + p, cur);
            NextPage(ShiftedMap(cs), p, cur) == if b == TWO64 - p then cur else b
  {
    IsPow2Positive(p);
    BestNextScans(cs, |cs|, p, cur);
    assert cs[..|cs|] == cs;
    hide BestNext;
    hide NextScan;
    hide NextPage;
    hide PageOk;
    hide IsPow2;
    hide Reaches;
    NextScanComplete(ShiftedMap(cs), p, cur, ScanBest(BestNext(cs, p, cur + p, cur), p, cur));
    NextPageIsSuccessor(ShiftedMap(cs), p, cur);
  }

  /** What one entry does to the best page: the adjacent page wins as soon as it is offered, and stays. */
  lemma ReachedPageStep(cs: seq<NxDescriptor>, n: nat, p: u64, cur: u64)
    requires n < |cs| && IsPow2(p) && p <= 2048 && cur % p == 0 && cur + 2 * p < TWO64
    requires !PageOk(ShiftedMap(cs), cur + p, p)
    ensures p > 0
    ensures Reaches(cs[n], p, cur) || BestNext(cs[..n], p, cur + p, cur) == cur + p ==>
              BestNext(cs[..n + 1], p, cur + p, cur) == cur + p
  {
    hide BestNext;
    hide NextCandidate;
    hide PageOk;
    hide FirstCandidate;
    hide LoopEnd;
    hide Usable;
    hide Covers;
    IsPow2Positive(p);
    NoneCovers(ShiftedMap(cs), n, cur + p, p);
    NextCandidateKinds(cs[n], p, cur);
    hide IsPow2;
    BestNextStep(cs, n, p, cur + p, cur);
    BestNextIsAligned(cs[..n], p, cur + p, cur);
    NextCandidateIsAligned(cs[n], p, cur + p, cur);
    NotBetween(cur, BestNext(cs[..n], p, cur + p, cur), p);
    var candidate := NextCandidate(cs[n], p, cur + p, cur);
    if candidate.Some? {
      NotBetween(cur, candidate.value, p);
    }
  }

  lemma NotBetween(cur: nat, page: nat, p: nat)
    requires p > 0 && cur % p == 0 && page % p == 0 && cur <= page
    ensures page == cur || cur + p <= page
  {
    if cur < page {
      MultipleGap(cur, page, p);
    }
  }

  /** A high entry that reaches past the invalid adjacent page makes the loop answer just that page. */
  lemma {:induction false} ReachedPageWins(cs: seq<NxDescriptor>, n: nat, i: nat, p: u64, cur: u64)
    requires i < n <= |cs| && IsPow2(p) && p <= 2048 && cur % p == 0 && cur + 2 * p < TWO64
    requires !PageOk(ShiftedMap(cs), cur + p, p) && Reaches(cs[i], p, cur)
    ensures p > 0 && BestNext(cs[..n], p, cur + p, cur) == cur + p
    decreases n
  {
    hide BestNext;
    hide PageOk;
    hide Reaches;
    hide IsPow2;
    ReachedPageStep(cs, n - 1, p, cur);
    if i < n - 1 {
      ReachedPageWins(cs, n - 1, i, p, cur);
    }
  }

  /** Re-checking the range of an answer, as the page keys do. */
  function Rechecked(cs: seq<NxDescriptor>, p: u64, cur: u64, answer: u64): u64 {
    if answer != cur && CoreRangeOk(cs, answer, p) then answer else cur
  }

  /** The adjacent page is invalid, a wrapped end reaches past it, and there is a valid page further up. */
  ghost predicate ShadowsNext(cs: seq<NxDescriptor>, p: u64, cur: u64)
    requires p > 0
  {
    && !PageOk(ShiftedMap(cs), cur + p, p)
    && (exists i :: 0 <= i < |cs| && Reaches(cs[i], p, cur))
    && (exists x :: cur < x && ValidPage(ShiftedMap(cs), p, x))
  }

  lemma ShadowedMeansAbove(cs: seq<NxDescriptor>, p: u64, cur: u64)
    requires p > 0 && cur % p == 0
    ensures (exists x :: cur < x && ValidPage(ShiftedMap(cs), p, x)) <==> NextPage(ShiftedMap(cs), p, cur) != cur
  {
    NextPageIsSuccessor(ShiftedMap(cs), p, cur);
  }

  lemma NextFromUnfolds(cs: seq<NxDescriptor>, p: u64, cur: u64)
    requires 0 < p && cur % p == 0 && cur + 2 * p < TWO64
    ensures NextFrom(cs, p, cur) ==
              if PageOk(ShiftedMap(cs), cur + p, p) then cur + p else BestNext(cs, p, cur + p, cur)
  {
    hide CorePageOk;
    hide BestNext;
    hide PageOk;
    ChecksAreShifted(cs, cur + p, p);
    assert Floor(cur + p, p) == cur + p by {
      MultipleStep(cur, p);
      FloorUnique(cur + p, p, cur + p);
    }
    hide Floor;
  }

  /** The answer of the loop in all cases below the last two pages. */
  lemma NextFromCases(cs: seq<NxDescriptor>, p: u64, cur: u64)
    requires IsPow2(p) && p <= 2048 && cur % p == 0 && cur + 2 * p < TWO64
    ensures p > 0
    ensures var ds, r := ShiftedMap(cs), NextFrom(cs, p, cur);
            if PageOk(ds, cur + p, p) then r == cur + p && NextPage(ds, p, cur) == cur + p
            else if exists i :: 0 <= i < |cs| && Reaches(cs[i], p, cur) then r == cur + p
            else NextPage(ds, p, cur) == if r == TWO64 - p then cur else r
  {
    hide NextFrom;
    hide BestNext;
    hide NextPage;
    hide PageOk;
    hide Reaches;
    hide IsPow2;
    IsPow2Positive(p);
    NextFromUnfolds(cs, p, cur);
    var ds := ShiftedMap(cs);
    if PageOk(ds, cur + p, p) {
      AdjacentNext(ds, p, cur);
    } else if i :| 0 <= i < |cs| && Reaches(cs[i], p, cur) {
      ReachedPageWins(cs, |cs|, i, p, cur);
      assert cs[..|cs|] == cs;
    } else {
      BestNextIsSuccessor(cs, p, cur);
    }
  }

  /** On any map, from any page boundary: re-checked, "next" is the successor, or it stays because it is shadowed. */
  lemma RecheckedNext(cs: seq<NxDescriptor>, p: u64, cur: u64)
    requires IsPow2(p) && p <= 2048 && cur % p == 0
    ensures p > 0
    ensures Rechecked(cs, p, cur, NextFrom(cs, p, cur)) ==
              if ShadowsNext(cs, p, cur) then cur else NextPage(ShiftedMap(cs), p, cur)
  {
    IsPow2Positive(p);
    var ds, r := ShiftedMap(cs), NextFrom(cs, p, cur);
    ShadowedMeansAbove(cs, p, cur);
    ChecksAreShifted(cs, r, p);
    NextPageIsSuccessor(ds, p, cur);
    if cur + 2 * p < TWO64 {
      NextFromCases(cs, p, cur);
      if r + p == TWO64 {
        TopPageIsInvalid(ds, r, p);
      }
    } else {
      NothingAbove(ds, p, cur);
      StepsAreAligned(cs, p, cur);
      if r != cur {
        MultipleGap(cur, r, p);
        BeyondTheEnd(ds, r, p);
      }
    }
    hide NextFrom;
    hide NextPage;
    hide PageOk;
    hide CoreRangeOk;
    hide IsPow2;
    hide Reaches;
  }

  /** It is the successor if and only if it is not shadowed. */
  lemma RecheckedNextIsExactIff(cs: seq<NxDescriptor>, p: u64, cur: u64)
    requires IsPow2(p) && p <= 2048 && cur % p == 0
    ensures p > 0
    ensures IsSuccessor(ShiftedMap(cs), p, cur, Rechecked(cs, p, cur, NextFrom(cs, p, cur))) <==> !ShadowsNext(cs, p, cur)
  {
    RecheckedNext(cs, p, cur);
    ShadowedMeansAbove(cs, p, cur);
    NextPageIsSuccessor(ShiftedMap(cs), p, cur);
    hide NextFrom;
    hide NextPage;
    hide Rechecked;
  }

  ghost predicate ExactUpwards(cs: seq<NxDescriptor>, p: u64)
    requires p > 0
  {
    forall cur: u64 :: cur % p == 0 ==>
      IsSuccessor(ShiftedMap(cs), p, cur, Rechecked(cs, p, cur, NextFrom(cs, p, cur)))
  }

  /** Every page but the first inside a wrapped end is valid, or no valid page lies beyond it. */
  ghost predicate WrappedEndsAreFilled(cs: seq<NxDescriptor>, p: u64)
    requires p > 0
  {
    forall i, page: u64 ::
      0 <= i < |cs| && HighEntry(cs[i], p) && page % p == 0 && p <= page && page + p <= LoopEnd(cs[i]) ==>
        PageOk(ShiftedMap(cs), page, p) || forall x :: page < x ==> !ValidPage(ShiftedMap(cs), p, x)
  }

  /** "Next" is exact from every page of a map if and only if its wrapped ends are filled. */
  lemma ExactUpwardsIff(cs: seq<NxDescriptor>, p: u64)
    requires IsPow2(p) && p <= 2048
    ensures p > 0 && (ExactUpwards(cs, p) <==> WrappedEndsAreFilled(cs, p))
  {
    IsPow2Positive(p);
    forall cur: u64 | cur % p == 0
      ensures IsSuccessor(ShiftedMap(cs), p, cur, Rechecked(cs, p, cur, NextFrom(cs, p, cur))) <==> !ShadowsNext(cs, p, cur)
    {
      RecheckedNextIsExactIff(cs, p, cur);
    }
    hide Rechecked;
    hide NextFrom;
    hide IsSuccessor;
    hide IsPow2;
    if WrappedEndsAreFilled(cs, p) {
      forall cur: u64 | cur % p == 0
        ensures !ShadowsNext(cs, p, cur)
      {
        FilledIsUnshadowed(cs, p, cur);
      }
    }
    if ExactUpwards(cs, p) {
      forall i, page: u64 |
        0 <= i < |cs| && HighEntry(cs[i], p) && page % p == 0 && p <= page && page + p <= LoopEnd(cs[i])
        ensures PageOk(ShiftedMap(cs), page, p) || forall x :: page < x ==> !ValidPage(ShiftedMap(cs), p, x)
      {
        MultipleStep(page, p);
        assert !ShadowsNext(cs, p, page - p);
        UnshadowedIsFilled(cs, p, i, page);
      }
    }
  }

  lemma FilledIsUnshadowed(cs: seq<NxDescriptor>, p: u64, cur: u64)
    requires p > 0 && cur % p == 0 && WrappedEndsAreFilled(cs, p)
    ensures !ShadowsNext(cs, p, cur)
  {
    hide PageOk;
    hide LoopEnd;
    MultipleStep(cur, p);
    if i :| 0 <= i < |cs| && Reaches(cs[i], p, cur) {
      if !PageOk(ShiftedMap(cs), cur + p, p) {
        forall x | cur < x
          ensures !ValidPage(ShiftedMap(cs), p, x)
        {
          if x < cur + p && x % p == 0 {
            MultipleGap(cur, x, p);
          }
        }
      }
    }
  }

  lemma UnshadowedIsFilled(cs: seq<NxDescriptor>, p: u64, i: nat, page: u64)
    requires 0 < p <= page && i < |cs| && HighEntry(cs[i], p) && page + p <= LoopEnd(cs[i])
    requires !ShadowsNext(cs, p, page - p)
    ensures PageOk(ShiftedMap(cs), page, p) || forall x :: page < x ==> !ValidPage(ShiftedMap(cs), p, x)
  {
    hide PageOk;
    hide LoopEnd;
    assert Reaches(cs[i], p, page - p);
  }

  // --------------------------------------------------------- the "previous" loop

  /** The best of the entries that are not high. */
  function LowBest(cs: seq<NxDescriptor>, p: u64, prev: nat): nat
    requires p > 0
  {
    if cs == [] then 0
    else
      var best, d := LowBest(cs[..|cs| - 1], p, prev), Shifted(cs[|cs| - 1]);
      if Offers(d, p, prev) && ClippedLast(d, p, prev) > best then ClippedLast(d, p, prev) else best
  }

  /** The best of the high entries. */
  function HighBest(cs: seq<NxDescriptor>, p: u64, prev: nat): (h: nat)
    requires p > 0
    ensures forall i :: 0 <= i < |cs| && HighEntry(cs[i], p) ==> HighClip(cs[i], p, prev) <= h
    ensures h > 0 ==> exists i :: 0 <= i < |cs| && HighEntry(cs[i], p) && HighClip(cs[i], p, prev) == h
  {
    if cs == [] then 0
    else
      hide HighEntry;
      hide HighClip;
      var front, c := cs[..|cs| - 1], cs[|cs| - 1];
      var best := HighBest(front, p, prev);
      assert forall i :: 0 <= i < |front| ==> front[i] == cs[i];
      if HighEntry(c, p) && HighClip(c, p, prev) > best then HighClip(c, p, prev) else best
  }

  /** The loop's best page is the better of the two. */
  lemma {:induction false} BestPrevIsBetter(cs: seq<NxDescriptor>, p: u64, cur: u64)
    requires IsPow2(p) && p <= 2048 && p <= cur && cur % p == 0
    ensures p > 0
    ensures var low, high := LowBest(cs, p, cur - p), HighBest(cs, p, cur - p);
            BestPrev(cs, p, cur) == if high > low then high else low
  {
    IsPow2Positive(p);
    if cs != [] {
      BestPrevIsBetter(cs[..|cs| - 1], p, cur);
      PrevCandidateKinds(cs[|cs| - 1], p, cur);
    }
    hide PrevCandidate;
    hide IsPow2;
    hide FirstCandidate;
    hide Floor;
    hide LoopEnd;
    hide Sized;
  }

  lemma LowStep(cs: seq<NxDescriptor>, n: nat, p: u64, prev: nat)
    requires n < |cs| && IsPow2(p) && p <= 2048 && prev % p == 0 && !PageOk(ShiftedMap(cs), prev, p)
    ensures p > 0
    ensures var d, best := ShiftedMap(cs)[n], LowBest(cs[..n], p, prev);
            var better := Offers(d, p, prev) && (best == 0 || ClippedLast(d, p, prev) > best);
            && LowBest(cs[..n + 1], p, prev) == (if better then ClippedLast(d, p, prev) else best)
            && (better ==> ClippedLast(d, p, prev) != 0)
  {
    IsPow2Positive(p);
    assert cs[..n + 1][..n] == cs[..n];
    if Offers(ShiftedMap(cs)[n], p, prev) {
      LastPageIsNotZero(ShiftedMap(cs), n, p, prev);
    }
    hide IsPow2;
    hide FirstCandidate;
    hide PageOk;
    hide Floor;
  }

  lemma LowBestScansOn(cs: seq<NxDescriptor>, n: nat, p: u64, prev: u64)
    requires n < |cs| && IsPow2(p) && p <= 2048 && prev % p == 0 && !PageOk(ShiftedMap(cs), prev, p)
    requires p > 0
    requires var b := LowBest(cs[..n], p, prev); b < TWO64 && PrevScan(ShiftedMap(cs), n, p, prev, b, b != 0)
    ensures var b := LowBest(cs[..n + 1], p, prev); b < TWO64 && PrevScan(ShiftedMap(cs), n + 1, p, prev, b, b != 0)
  {
    hide PageOk;
    hide Offers;
    hide ClippedLast;
    hide PrevScan;
    hide IsPow2;
    hide LowBest;
    var b := LowBest(cs[..n], p, prev);
    LowStep(cs, n, p, prev);
    PrevScanStep(ShiftedMap(cs), n, p, prev, b, b != 0);
    ClippedIsWord(ShiftedMap(cs)[n], p, prev);
  }

  /** The entries that are not high are the scan whose maximum is the predecessor. */
  lemma {:induction false} LowBestScans(cs: seq<NxDescriptor>, n: nat, p: u64, prev: u64)
    requires n <= |cs| && IsPow2(p) && p <= 2048 && prev % p == 0 && !PageOk(ShiftedMap(cs), prev, p)
    ensures p > 0
    ensures var b := LowBest(cs[..n], p, prev);
            b < TWO64 && PrevScan(ShiftedMap(cs), n, p, prev, b, b != 0)
  {
    IsPow2Positive(p);
    hide IsPow2;
    hide PageOk;
    hide Offers;
    hide ClippedLast;
    if n == 0 {
      assert LowBest(cs[..0], p, prev) == 0;
    } else {
      hide PrevScan;
      hide LowBest;
      LowBestScans(cs, n - 1, p, prev);
      LowBestScansOn(cs, n - 1, p, prev);
    }
  }

  lemma ClippedIsWord(d: Descriptor, p: nat, prev: u64)
    requires p > 0
    ensures Offers(d, p, prev) ==> ClippedLast(d, p, prev) <= prev
  {
  }

  lemma LowBestIsPredecessor(cs: seq<NxDescriptor>, p: u64, cur: u64)
    requires IsPow2(p) && p <= 2048 && p <= cur && cur % p == 0 && !PageOk(ShiftedMap(cs), cur - p, p)
    ensures p > 0
    ensures var b := LowBest(cs, p, cur - p); PrevPage(ShiftedMap(cs), p, cur) == if b != 0 then b else cur
  {
    IsPow2Positive(p);
    MultipleStep(cur, p);
    LowBestScans(cs, |cs|, p, cur - p);
    assert cs[..|cs|] == cs;
    hide LowBest;
    hide PrevScan;
    hide PrevPage;
    hide PageOk;
    hide IsPow2;
    var b := LowBest(cs, p, cur - p);
    PrevScanComplete(ShiftedMap(cs), p, cur, b, b != 0);
    PrevPageIsPredecessor(ShiftedMap(cs), p, cur);
  }

  /** There are valid pages below, but a high entry offers a page above all of them. */
  ghost predicate ShadowsPrev(cs: seq<NxDescriptor>, p: u64, cur: u64)
    requires p > 0
  {
    && p <= cur
    && (exists x :: 0 <= x < cur && ValidPage(ShiftedMap(cs), p, x))
    && (exists i :: 0 <= i < |cs| && HighEntry(cs[i], p) &&
          forall x :: HighClip(cs[i], p, cur - p) <= x < cur ==> !ValidPage(ShiftedMap(cs), p, x))
  }

  lemma ShadowIsAbovePredecessor(cs: seq<NxDescriptor>, p: u64, cur: u64, b: nat)
    requires p > 0 && ShadowsPrev(cs, p, cur) && IsPredecessor(ShiftedMap(cs), p, cur, b)
    ensures b != cur && HighBest(cs, p, cur - p) > b
  {
    hide ValidPage;
    hide LoopEnd;
    hide HighClip;
    hide HighBest;
    hide ShiftedMap;
    var ds := ShiftedMap(cs);
    var x :| 0 <= x < cur && ValidPage(ds, p, x);
    var i :| 0 <= i < |cs| && HighEntry(cs[i], p) &&
             forall y :: HighClip(cs[i], p, cur - p) <= y < cur ==> !ValidPage(ds, p, y);
    assert b != cur && ValidPage(ds, p, b);
    assert b < HighClip(cs[i], p, cur - p);
  }

  lemma AbovePredecessorIsShadow(cs: seq<NxDescriptor>, p: u64, cur: u64, b: nat)
    requires 0 < p <= cur && IsPredecessor(ShiftedMap(cs), p, cur, b) && b != cur && HighBest(cs, p, cur - p) > b
    ensures ShadowsPrev(cs, p, cur)
  {
    hide ValidPage;
    hide LoopEnd;
    hide HighClip;
    hide HighBest;
    hide ShiftedMap;
    var ds, h := ShiftedMap(cs), HighBest(cs, p, cur - p);
    assert forall x :: h <= x < cur ==> !ValidPage(ds, p, x);
    var i :| 0 <= i < |cs| && HighEntry(cs[i], p) && HighClip(cs[i], p, cur - p) == h;
    assert forall x :: HighClip(cs[i], p, cur - p) <= x < cur ==> !ValidPage(ds, p, x);
  }

  /** The shadow in terms of the predecessor. */
  lemma ShadowedMeansBelow(cs: seq<NxDescriptor>, p: u64, cur: u64)
    requires p > 0 && cur % p == 0 && p <= cur
    ensures var b := PrevPage(ShiftedMap(cs), p, cur);
            ShadowsPrev(cs, p, cur) <==> b != cur && HighBest(cs, p, cur - p) > b
  {
    hide PrevPage;
    hide ShadowsPrev;
    hide HighBest;
    hide IsPredecessor;
    var b := PrevPage(ShiftedMap(cs), p, cur);
    PrevPageIsPredecessor(ShiftedMap(cs), p, cur);
    if ShadowsPrev(cs, p, cur) {
      ShadowIsAbovePredecessor(cs, p, cur, b);
    }
    if b != cur && HighBest(cs, p, cur - p) > b {
      AbovePredecessorIsShadow(cs, p, cur, b);
    }
  }

  lemma BestPrevCases(cs: seq<NxDescriptor>, p: u64, cur: u64)
    requires IsPow2(p) && p <= 2048 && cur % p == 0 && p <= cur && !PageOk(ShiftedMap(cs), cur - p, p)
    ensures p > 0
    ensures var b, h := PrevPage(ShiftedMap(cs), p, cur), HighBest(cs, p, cur - p);
            BestPrev(cs, p, cur) == if b != cur && b >= h then b else h
  {
    IsPow2Positive(p);
    BestPrevIsBetter(cs, p, cur);
    LowBestIsPredecessor(cs, p, cur);
    LowBestIsBelow(cs, p, cur - p);
    hide BestPrev;
    hide LowBest;
    hide HighBest;
    hide PrevPage;
    hide PageOk;
    hide IsPow2;
  }

  lemma PrevFromUnfolds(cs: seq<NxDescriptor>, p: u64, cur: u64)
    requires 0 < p <= cur && cur % p == 0
    ensures PrevFrom(cs, p, cur) ==
              if PageOk(ShiftedMap(cs), cur - p, p) then cur - p
              else if BestPrev(cs, p, cur) != 0 then BestPrev(cs, p, cur)
              else cur
  {
    hide CorePageOk;
    hide BestPrev;
    hide PageOk;
    ChecksAreShifted(cs, cur - p, p);
    assert Floor(cur - p, p) == cur - p by {
      MultipleStep(cur, p);
      FloorUnique(cur - p, p, cur - p);
    }
    hide Floor;
  }

  /** The answer of the "previous" loop in all cases. */
  lemma PrevFromCases(cs: seq<NxDescriptor>, p: u64, cur: u64)
    requires IsPow2(p) && p <= 2048 && cur % p == 0 && p <= cur
    ensures p > 0
    ensures var ds, r, h := ShiftedMap(cs), PrevFrom(cs, p, cur), HighBest(cs, p, cur - p);
            var b := PrevPage(ds, p, cur);
            if PageOk(ds, cur - p, p) then r == b == cur - p
            else if b != cur && b >= h then r == if b > 0 then b else cur
            else r == if h > 0 then h else cur
  {
    hide PrevFrom;
    hide BestPrev;
    hide HighBest;
    hide PrevPage;
    hide PageOk;
    hide IsPow2;
    IsPow2Positive(p);
    PrevFromUnfolds(cs, p, cur);
    if PageOk(ShiftedMap(cs), cur - p, p) {
      AdjacentPrevious(ShiftedMap(cs), p, cur);
    } else {
      BestPrevCases(cs, p, cur);
    }
  }

  /** A predecessor other than the adjacent page is never page 0: every entry holds several pages. */
  lemma PredecessorIsNotZero(cs: seq<NxDescriptor>, p: u64, cur: u64)
    requires IsPow2(p) && p <= 2048 && cur % p == 0 && p <= cur && !PageOk(ShiftedMap(cs), cur - p, p)
    ensures p > 0 && PrevPage(ShiftedMap(cs), p, cur) != 0
  {
    IsPow2Positive(p);
    LowBestIsPredecessor(cs, p, cur);
    hide LowBest;
    hide PrevPage;
  }

  lemma {:induction false} LowBestIsBelow(cs: seq<NxDescriptor>, p: u64, prev: nat)
    requires p > 0
    ensures LowBest(cs, p, prev) <= prev
  {
    hide Offers;
    if cs != [] {
      LowBestIsBelow(cs[..|cs| - 1], p, prev);
    }
  }

  /** On any map: re-checked, "previous" is the predecessor, or it stays because it is shadowed. */
  lemma RecheckedPrevious(cs: seq<NxDescriptor>, p: u64, cur: u64)
    requires IsPow2(p) && p <= 2048 && cur % p == 0
    ensures p > 0
    ensures Rechecked(cs, p, cur, PrevFrom(cs, p, cur)) ==
              if ShadowsPrev(cs, p, cur) then cur else PrevPage(ShiftedMap(cs), p, cur)
  {
    IsPow2Positive(p);
    var ds, r := ShiftedMap(cs), PrevFrom(cs, p, cur);
    PrevPageIsPredecessor(ds, p, cur);
    ChecksAreShifted(cs, r, p);
    StepsAreAligned(cs, p, cur);
    assert ValidPage(ds, p, r) <==> PageOk(ds, r, p);
    if cur < p {
      SmallMod(cur, p);
    } else {
      ShadowedMeansBelow(cs, p, cur);
      PrevFromCases(cs, p, cur);
      HighBestIsBelow(cs, p, cur - p);
      if !PageOk(ds, cur - p, p) {
        PredecessorIsNotZero(cs, p, cur);
      }
    }
    hide PrevFrom;
    hide PrevPage;
    hide PageOk;
    hide ValidPage;
    hide CoreRangeOk;
    hide IsPow2;
    hide HighBest;
    hide ShadowsPrev;
  }

  lemma HighBestIsBelow(cs: seq<NxDescriptor>, p: u64, prev: nat)
    requires p > 0
    ensures HighBest(cs, p, prev) <= prev
  {
    hide HighEntry;
  }

  lemma RecheckedPreviousIsExactIff(cs: seq<NxDescriptor>, p: u64, cur: u64)
    requires IsPow2(p) && p <= 2048 && cur % p == 0
    ensures p > 0
    ensures IsPredecessor(ShiftedMap(cs), p, cur, Rechecked(cs, p, cur, PrevFrom(cs, p, cur))) <==> !ShadowsPrev(cs, p, cur)
  {
    RecheckedPrevious(cs, p, cur);
    PrevPageIsPredecessor(ShiftedMap(cs), p, cur);
    hide PrevFrom;
    hide PrevPage;
    hide Rechecked;
  }

  /** Without high entries nothing is shadowed. */
  lemma NoHighEntriesNoShadows(cs: seq<NxDescriptor>, p: u64, cur: u64)
    requires p > 0 && NoHighEntries(cs, p)
    ensures !ShadowsNext(cs, p, cur) && !ShadowsPrev(cs, p, cur)
  {
  }

  // --------------------------------------------- the loops without the re-check

  /** An entry that is not usable and starts below the last two pages contributes nothing. */
  lemma UnusableOffersNothing(c: NxDescriptor, p: u64, next: u64, cur: u64)
    requires IsPow2(p) && !Usable(Shifted(c)) && (NxBrowsable(c.nxType) && c.pages != 0 ==> c.start + 2 * p <= TWO64)
    ensures p > 0 && NextCandidate(c, p, next, cur) == None
  {
    RoundedStart(c.start, p);
    UncheckedEnd(c);
    hide IsPow2;
    hide AlignedUp;
    hide FirstCandidate;
    hide LoopEnd;
  }

  lemma {:induction false} UnusableMapOffersNothing(cs: seq<NxDescriptor>, p: u64, next: u64, cur: u64)
    requires IsPow2(p) && LowStarts(cs, p) && !HasUsable(ShiftedMap(cs))
    ensures p > 0 && BestNext(cs, p, next, cur) == cur
  {
    IsPow2Positive(p);
    hide IsPow2;
    hide NextCandidate;
    hide Usable;
    if cs != [] {
      var front, c := cs[..|cs| - 1], cs[|cs| - 1];
      assert forall i :: 0 <= i < |cs| ==> !Usable(ShiftedMap(cs)[i]);
      assert forall i :: 0 <= i < |front| ==> front[i] == cs[i] && ShiftedMap(front)[i] == ShiftedMap(cs)[i];
      assert ShiftedMap(cs)[|cs| - 1] == Shifted(c);
      UnusableMapOffersNothing(front, p, next, cur);
      UnusableOffersNothing(c, p, next, cur);
    }
  }

  lemma TopIsNotOfferedOn(cs: seq<NxDescriptor>, n: nat, p: u64, cur: u64)
    requires n < |cs| && IsPow2(p) && p <= 2048 && cur % p == 0 && cur + 2 * p < TWO64
    requires LowStarts(cs, p) && !PageOk(ShiftedMap(cs), cur + p, p)
    requires p > 0 && BestNext(cs[..n], p, cur + p, cur) != TWO64 - p
    ensures BestNext(cs[..n + 1], p, cur + p, cur) != TWO64 - p
  {
    hide IsPow2;
    hide NextCandidate;
    hide PageOk;
    hide Usable;
    hide Covers;
    BestNextStep(cs, n, p, cur + p, cur);
    NoneCovers(ShiftedMap(cs), n, cur + p, p);
    LowNeverOffersTop(cs[n], p, cur);
    hide BestNext;
  }

  lemma {:induction false} TopIsNotOffered(cs: seq<NxDescriptor>, n: nat, p: u64, cur: u64)
    requires n <= |cs| && IsPow2(p) && p <= 2048 && cur % p == 0 && cur + 2 * p < TWO64
    requires LowStarts(cs, p) && !PageOk(ShiftedMap(cs), cur + p, p)
    ensures p > 0 && BestNext(cs[..n], p, cur + p, cur) != TWO64 - p
  {
    IsPow2Positive(p);
    hide NextCandidate;
    hide PageOk;
    hide LowStarts;
    if n == 0 {
      assert BestNext(cs[..0], p, cur + p, cur) == cur;
    } else {
      hide BestNext;
      TopIsNotOffered(cs, n - 1, p, cur);
      TopIsNotOfferedOn(cs, n - 1, p, cur);
    }
  }

  lemma LowNeverOffersTop(c: NxDescriptor, p: u64, cur: u64)
    requires IsPow2(p) && p <= 2048 && cur % p == 0 && cur + 2 * p < TWO64
    requires !(Usable(Shifted(c)) && Covers(Shifted(c), cur + p, p))
    requires NxBrowsable(c.nxType) && c.pages != 0 ==> c.start + 2 * p <= TWO64
    ensures p > 0 && NextCandidate(c, p, cur + p, cur) != Some(TWO64 - p)
  {
    NextCandidateKinds(c, p, cur);
    hide IsPow2;
    hide FirstCandidate;
    hide LoopEnd;
  }

  /** The page before the topmost one: the private check accepts the topmost page when anything is usable. */
  lemma NextFromBelowTop(cs: seq<NxDescriptor>, p: u64, cur: u64)
    requires IsPow2(p) && p <= 2048 && PagesFit(LiftMap(cs)) && LowStarts(cs, p)
    requires cur % p == 0 && cur + 2 * p == TWO64
    ensures p > 0 && NextFrom(cs, p, cur) == CoreNext(LiftMap(cs), p, cur)
  {
    TopIsBoundary(p);
    hide IsPow2;
    hide BestNext;
    hide CorePageOk;
    hide NextPage;
    hide HasUsable;
    ShiftedIsLifted(cs);
    PageCheckAgrees(cs, cur + p, p);
    NothingAbove(LiftMap(cs), p, cur);
    if !HasUsable(LiftMap(cs)) {
      UnusableMapOffersNothing(cs, p, cur + p, cur);
    }
    assert Floor(cur + p, p) == cur + p by {
      MultipleStep(cur, p);
      FloorUnique(cur + p, p, cur + p);
    }
    hide Floor;
  }

  lemma NextFromIsCoreNext(cs: seq<NxDescriptor>, p: u64, cur: u64)
    requires IsPow2(p) && p <= 2048 && PagesFit(LiftMap(cs)) && LowStarts(cs, p) && cur % p == 0
    ensures p > 0 && NextFrom(cs, p, cur) == CoreNext(LiftMap(cs), p, cur)
  {
    IsPow2Positive(p);
    var ds := LiftMap(cs);
    ShiftedIsLifted(cs);
    if cur + 2 * p == TWO64 {
      NextFromBelowTop(cs, p, cur);
    } else if cur + 2 * p > TWO64 {
      AlmostAtTheEnd(p, cur);
      NothingAbove(ds, p, cur);
    } else {
      NextFromUnfolds(cs, p, cur);
      NextFromCases(cs, p, cur);
      if !PageOk(ds, cur + p, p) {
        TopIsNotOffered(cs, |cs|, p, cur);
        assert cs[..|cs|] == cs;
      } else {
        ValidPageFits(ds, p, cur + p) by {
          MultipleStep(cur, p);
        }
      }
    }
    hide NextFrom;
    hide BestNext;
    hide NextPage;
    hide PageOk;
    hide IsPow2;
    hide LoopEnd;
  }

  lemma AlmostAtTheEnd(p: u64, cur: u64)
    requires IsPow2(p) && cur % p == 0 && cur + 2 * p > TWO64
    ensures p > 0 && cur + p == TWO64
  {
    TopIsBoundary(p);
    hide IsPow2;
    TopGapOf(cur, p);
    if cur + p < TWO64 {
      MultipleGap(cur, TWO64 - p, p);
    }
  }

  lemma TopGapOf(cur: u64, p: u64)
    requires p > 0 && cur % p == 0 && TWO64 % p == 0
    ensures cur + p <= TWO64
  {
    MultipleGap(cur, TWO64, p);
  }

  /**
    Where page counts fit and no entry starts in the last two pages, aligned or not, the loop
    answers the successor, up to the deviation at the topmost page.
   */
  lemma LoopNextIsCoreNext(cs: seq<NxDescriptor>, p: u64, address: u64)
    requires IsPow2(p) && p <= 2048 && PagesFit(LiftMap(cs)) && LowStarts(cs, p)
    ensures p > 0 && LoopNext(cs, p, address) == CoreNext(LiftMap(cs), p, Floor(address, p))
  {
    hide NextFrom;
    hide CoreNext;
    IsPow2Positive(p);
    FloorBounds(address, p);
    NextFromIsCoreNext(cs, p, Floor(address, p));
  }

  /** The deviation at an input: from the page below the topmost one the loop moves to the topmost one, which is invalid. */
  lemma LoopNextAtTheTop(c: NxDescriptor)
    requires WellFormed(LiftMap([c])) && Usable(Lift(c))
    ensures var cur := TWO64 - 512;
            && LoopNext([c], 256, cur) == TWO64 - 256
            && !ValidPage(LiftMap([c]), 256, TWO64 - 256)
            && !IsSuccessor(LiftMap([c]), 256, cur, LoopNext([c], 256, cur))
  {
    hide LoopNext;
    hide Floor;
    var ds := LiftMap([c]);
    assert Usable(ds[0]);
    assert IsPow2(256) by {
      Pow2Values();
      assert Pow2(8) == 256;
    }
    FloorUnique(TWO64 - 512, 256, TWO64 - 512);
    WholeFramesAreLow([c], 256);
    LoopNextIsCoreNext([c], 256, TWO64 - 512);
    CoreNextIsSuccessorUnlessTop(ds, 256, TWO64 - 512);
    TopPageIsInvalid(ds, TWO64 - 256, 256);
  }

  /** On any map without a high entry the "previous" loop answers the predecessor; its zero sentinel hides nothing. */
  lemma LoopPrevIsPrevPage(cs: seq<NxDescriptor>, p: u64, address: u64)
    requires IsPow2(p) && p <= 2048 && NoHighEntries(cs, p)
    ensures p > 0 && LoopPrev(cs, p, address) == PrevPage(ShiftedMap(cs), p, Floor(address, p))
  {
    hide PrevFrom;
    hide PrevPage;
    hide HighEntry;
    IsPow2Positive(p);
    FloorBounds(address, p);
    var cur := Floor(address, p);
    PrevPageIsPredecessor(ShiftedMap(cs), p, cur);
    if cur < p {
      PrevOfFirstPage(cs, p, cur);
    } else {
      PrevFromCases(cs, p, cur);
      assert HighBest(cs, p, cur - p) == 0;
      if !PageOk(ShiftedMap(cs), cur - p, p) {
        PredecessorIsNotZero(cs, p, cur);
      }
    }
    hide HighBest;
    hide PageOk;
    hide IsPow2;
  }

  lemma PrevOfFirstPage(cs: seq<NxDescriptor>, p: u64, cur: u64)
    requires cur < p && cur % p == 0
    ensures PrevFrom(cs, p, cur) == cur == PrevPage(ShiftedMap(cs), p, cur)
  {
    SmallMod(cur, p);
    PrevPageIsPredecessor(ShiftedMap(cs), p, 0);
  }

  // ----------------------------------------------------- wrapped counts, and inputs

  /** Where wrapped counts are harmless the shifted map has the valid pages of the map itself. */
  lemma HarmlessWrapsNavigate(cs: seq<NxDescriptor>, p: u64, cur: u64)
    requires WrapsAreHarmless(cs) && p > 0 && cur % p == 0
    ensures NextPage(ShiftedMap(cs), p, cur) == NextPage(LiftMap(cs), p, cur)
    ensures PrevPage(ShiftedMap(cs), p, cur) == PrevPage(LiftMap(cs), p, cur)
  {
    var ds, es := ShiftedMap(cs), LiftMap(cs);
    forall x
      ensures ValidPage(ds, p, x) <==> ValidPage(es, p, x)
    {
      if 0 <= x && x + p <= MAX_UINT64 {
        ChecksAreShifted(cs, x, p);
        HarmlessWrapsAgree(cs, x, p);
      } else {
        if ValidPage(ds, p, x) {
          ValidPageFits(ds, p, x);
        }
        if ValidPage(es, p, x) {
          ValidPageFits(es, p, x);
        }
      }
    }
    SamePagesSameAnswers(ds, es, p, cur);
  }

  lemma SamePagesSameAnswers(ds: seq<Descriptor>, es: seq<Descriptor>, p: nat, cur: nat)
    requires p > 0 && cur % p == 0 && forall x :: ValidPage(ds, p, x) <==> ValidPage(es, p, x)
    ensures NextPage(ds, p, cur) == NextPage(es, p, cur) && PrevPage(ds, p, cur) == PrevPage(es, p, cur)
  {
    hide ValidPage;
    hide NextPage;
    hide PrevPage;
    NextPageIsSuccessor(ds, p, cur);
    NextPageIsSuccessor(es, p, cur);
    assert IsSuccessor(ds, p, cur, NextPage(es, p, cur));
    PrevPageIsPredecessor(ds, p, cur);
    PrevPageIsPredecessor(es, p, cur);
    assert IsPredecessor(ds, p, cur, PrevPage(es, p, cur));
  }

  /** An entry ten bytes below the end of the address space; its rounded-up start is 0. */
  function LateEntry(pages: u64): NxDescriptor {
    NxDescriptor(NxConventional, 0xFFFF_FFFF_FFFF_FFF6, pages, 0, 7)
  }

  lemma LateEntryIsHigh(pages: u64)
    requires 1 <= pages <= 2
    ensures HighEntry(LateEntry(pages), 256) && LoopEnd(LateEntry(pages)) == pages * PAGE_SHIFT_SIZE - 10
  {
  }

  lemma LateEntryIsUnusable(pages: u64)
    requires 1 <= pages <= 2
    ensures !Usable(Shifted(LateEntry(pages)))
  {
    LateEntryIsHigh(pages);
    UncheckedEnd(LateEntry(pages));
    hide LoopEnd;
  }

  /** A late entry of one frame, and a usable entry at 0x10000. */
  function MapShadowingNext(): seq<NxDescriptor> {
    [LateEntry(1), NxDescriptor(NxConventional, 0x1_0000, 1, 0, 7)]
  }

  /** A late entry of two frames, and one usable frame at 0. */
  function MapShadowingPrev(): seq<NxDescriptor> {
    [LateEntry(2), NxDescriptor(NxConventional, 0, 1, 0, 7)]
  }

  /** The pages of a two-entry map whose first entry is unusable. */
  lemma OnlySecondEntry(c: NxDescriptor, d: NxDescriptor, page: int, p: nat)
    requires p > 0 && !Usable(Shifted(c)) && Usable(Shifted(d))
    ensures PageOk(ShiftedMap([c, d]), page, p) <==> Covers(Shifted(d), page, p)
  {
    assert ShiftedMap([c, d])[0] == Shifted(c) && ShiftedMap([c, d])[1] == Shifted(d);
    hide Usable;
    hide Covers;
    hide Shifted;
  }

  /** On page 0 "next" is shadowed although a valid page lies above. */
  lemma LateEntryShadowsNext()
    ensures ShadowsNext(MapShadowingNext(), 256, 0)
  {
    var cs := MapShadowingNext();
    var c, d := cs[0], cs[1];
    assert d.start == 0x1_0000 && d.pages == 1 && NxBrowsable(d.nxType);
    LateEntryIsUnusable(1);
    LateEntryIsHigh(1);
    assert Reaches(cs[0], 256, 0);
    hide LateEntry;
    hide HighEntry;
    hide LoopEnd;
    hide Reaches;
    OnlySecondEntry(c, d, 256, 256);
    OnlySecondEntry(c, d, 0x1_0000, 256);
    hide PageOk;
    assert ValidPage(ShiftedMap(cs), 256, 0x1_0000);
  }

  /** On page 0x4000 "previous" is shadowed although page 0 is valid. */
  lemma LateEntryShadowsPrev()
    ensures ShadowsPrev(MapShadowingPrev(), 256, 0x4000)
  {
    var cs := MapShadowingPrev();
    var c, d := cs[0], cs[1];
    assert d.start == 0 && d.pages == 1 && NxBrowsable(d.nxType);
    LateEntryIsUnusable(2);
    LateEntryIsHigh(2);
    FloorUnique(8192 - 10 - 256, 256, 7680);
    assert HighEntry(cs[0], 256) && HighClip(cs[0], 256, 0x4000 - 256) == 7680;
    hide LateEntry;
    hide HighEntry;
    hide HighClip;
    hide LoopEnd;
    OnlySecondEntry(c, d, 0, 256);
    forall x | 7680 <= x < 0x4000
      ensures !PageOk(ShiftedMap(cs), x, 256)
    {
      OnlySecondEntry(c, d, x, 256);
    }
    hide PageOk;
    assert ValidPage(ShiftedMap(cs), 256, 0);
  }
}
