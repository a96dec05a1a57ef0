/**
 * G1's remembered-set tracking policy (`G1RemSetTrackingPolicy`): which
 * heap regions keep a remembered set, and how a region's remembered-set
 * state moves through a concurrent rebuild cycle. Each policy entry point
 * is a transition on the state of one region (or, for a humongous object,
 * of all of its regions); the properties the policy consults but does not
 * own (occupancy, the object's type) are parameters.
 */
module RemSetTracking {

  import opened Options

  datatype RegionType = Free | Eden | Survivor | StartsHumongous | ContinuesHumongous | Old

  /** The three states of a region's remembered set. */
  datatype RemSetState = Untracked | Updating | Complete

  datatype Region = Region(kind: RegionType, state: RemSetState)

  predicate IsYoung(r: Region) {
    r.kind == Eden || r.kind == Survivor
  }

  predicate IsHumongous(r: Region) {
    r.kind == StartsHumongous || r.kind == ContinuesHumongous
  }

  predicate IsOldOrHumongous(r: Region) {
    r.kind == Old || IsHumongous(r)
  }

  /** A remembered set is tracked while it is being rebuilt or once it is
      complete. */
  predicate IsTracked(r: Region) {
    r.state != Untracked
  }

  /** The regions of one humongous object: a starts-humongous region followed
      by its continues-humongous regions. */
  predicate HumongousObject(obj: seq<Region>) {
    && |obj| > 0
    && obj[0].kind == StartsHumongous
    && forall i | 1 <= i < |obj| :: obj[i].kind == ContinuesHumongous
  }

  // ---------------------------------------------------------------------
  // The transition graph
  // ---------------------------------------------------------------------

  /** The moves a rebuild cycle may make: start rebuilding an untracked set,
      finish rebuilding one, or stay put. */
  predicate RebuildMove(from: RemSetState, to: RemSetState) {
    || from == to
    || (from == Untracked && to == Updating)
    || (from == Updating && to == Complete)
  }

  // ---------------------------------------------------------------------
  // Allocation and freeing
  // ---------------------------------------------------------------------

  /**
   * `update_at_allocate`, for a young, humongous or old region: a new old
   * region starts without a remembered set; young and humongous regions
   * always have a complete one (humongous ones for eager reclaim).
   */
  function UpdateAtAllocate(r: Region): (r': Region)
    requires IsYoung(r) || IsHumongous(r) || r.kind == Old
    ensures r'.kind == r.kind
    ensures IsTracked(r') <==> r.kind != Old
    ensures r'.state != Updating
  {
    if r.kind == Old then r.(state := Untracked) else r.(state := Complete)
  }

  /** `update_at_free` has nothing to do: freeing is the identity on a
      region's remembered-set state. */
  function UpdateAtFree(r: Region): (r': Region)
    ensures r' == r
  {
    r
  }

  // ---------------------------------------------------------------------
  // Before the rebuild
  // ---------------------------------------------------------------------

  /**
   * `update_old_before_rebuild`, for an old region that is not being
   * rebuilt: selects the region for rebuilding exactly when its occupancy
   * is low enough for evacuation and it has no remembered set yet.
   */
  function UpdateOldBeforeRebuild(r: Region, lowOccupancy: bool): (res: (bool, Region))
    requires r.kind == Old && r.state != Updating
    ensures res.0 <==> lowOccupancy && !IsTracked(r)
    ensures res.0 ==> res.1 == r.(state := Updating)
    ensures !res.0 ==> res.1 == r
  {
    if lowOccupancy && !IsTracked(r) then (true, r.(state := Updating))
    else (false, r)
  }

  /**
   * `update_humongous_before_rebuild`, for the regions of a humongous object
   * whose starts-humongous region is not being rebuilt: an untracked object
   * holding a type array (which eager reclaim can use) has every one of its
   * regions put into rebuilding.
   */
  function UpdateHumongousBeforeRebuild(obj: seq<Region>, isTypeArray: bool): (res: (bool, seq<Region>))
    requires HumongousObject(obj) && obj[0].state != Updating
    ensures res.0 <==> isTypeArray && !IsTracked(obj[0])
    ensures |res.1| == |obj|
    ensures forall i | 0 <= i < |obj| :: res.1[i].kind == obj[i].kind
    ensures res.0 ==> forall i | 0 <= i < |obj| :: res.1[i].state == Updating
    ensures !res.0 ==> res.1 == obj
  {
    if isTypeArray && !IsTracked(obj[0]) then
      (true, seq(|obj|, i requires 0 <= i < |obj| => obj[i].(state := Updating)))
    else
      (false, obj)
  }

  // ---------------------------------------------------------------------
  // After the rebuild
  // ---------------------------------------------------------------------

  /** The step `update_after_rebuild` takes on the region itself: an old
      or humongous region whose set was being rebuilt now has a complete
      one; nothing else changes. */
  function UpdateAfterRebuild(r: Region): (r': Region)
    ensures r'.kind == r.kind
    ensures IsOldOrHumongous(r) && r.state == Updating ==> r'.state == Complete
    ensures !(IsOldOrHumongous(r) && r.state == Updating) ==> r' == r
  {
    if IsOldOrHumongous(r) && r.state == Updating then r.(state := Complete) else r
  }

  /** One past the run of continues-humongous regions that starts at `j`. */
  function RunEnd(heap: seq<Region>, j: nat): (e: nat)
    requires j <= |heap|
    ensures j <= e <= |heap|
    ensures forall k | j <= k < e :: heap[k].kind == ContinuesHumongous
    ensures e < |heap| ==> heap[e].kind != ContinuesHumongous
    decreases |heap| - j
  {
    if j < |heap| && heap[j].kind == ContinuesHumongous then RunEnd(heap, j + 1) else j
  }

  /** The starts-humongous region of the humongous object that region `j`
      belongs to; none for a region outside every humongous object. */
  function Owner(heap: seq<Region>, j: nat): (h: Option<nat>)
    requires j < |heap|
    ensures h.Some? ==> h.value <= j && heap[h.value].kind == StartsHumongous
  {
    if heap[j].kind == StartsHumongous then Some(j)
    else if heap[j].kind == ContinuesHumongous && j > 0 then Owner(heap, j - 1)
    else None
  }

  /** Region `j` belongs to a humongous object whose starts-humongous region
      is not a potential eager-reclaim candidate, so its remembered set is
      dropped after the rebuild. */
  predicate Dropped(heap: seq<Region>, candidate: seq<bool>, j: nat)
    requires |candidate| == |heap| && j < |heap|
  {
    Owner(heap, j).Some? && !candidate[Owner(heap, j).value]
  }

  /**
   * `update_after_rebuild` for region `i` of the heap, `eagerCandidate` being
   * what `is_potential_eager_reclaim_candidate` answers for it. After the
   * region's own step, a starts-humongous region that is not a candidate
   * has the card sets of every region of its object cleared, and the clear
   * (which does not keep tracking) leaves all of them Untracked.
   */
  function UpdateAfterRebuildAt(heap: seq<Region>, i: nat, eagerCandidate: bool): (heap': seq<Region>)
    requires i < |heap|
    ensures |heap'| == |heap|
    ensures forall j | 0 <= j < |heap| :: heap'[j].kind == heap[j].kind
    ensures heap[i].kind == StartsHumongous && !eagerCandidate ==>
              forall j | 0 <= j < |heap| ::
                heap'[j] == if Owner(heap, j) == Some(i) then heap[j].(state := Untracked) else heap[j]
    ensures !(heap[i].kind == StartsHumongous && !eagerCandidate) ==>
              heap' == heap[i := UpdateAfterRebuild(heap[i])]
  {
    var h := heap[i := UpdateAfterRebuild(heap[i])];
    if heap[i].kind == StartsHumongous && !eagerCandidate then
      var end := RunEnd(heap, i + 1);
      var h' := seq(|h|, j requires 0 <= j < |h| => if i <= j < end then h[j].(state := Untracked) else h[j]);
      assert forall j | 0 <= j < |heap| :: (i <= j < end <==> Owner(heap, j) == Some(i)) by {
        forall j | 0 <= j < |heap|
          ensures i <= j < end <==> Owner(heap, j) == Some(i)
        {
          if j > i {
            RunIsObject(heap, i, j);
          }
        }
      }
      h'
    else h
  }

  /** The regions after a starts-humongous region that belong to its object
      are exactly its run of continues-humongous regions. */
  lemma {:induction false} RunIsObject(heap: seq<Region>, i: nat, j: nat)
    requires i < j < |heap| && heap[i].kind == StartsHumongous
    ensures Owner(heap, j) == Some(i) <==> j < RunEnd(heap, i + 1)
    decreases j
  {
    if j > i + 1 {
      RunIsObject(heap, i, j - 1);
    }
  }

  /** `update_after_rebuild` applied to the regions of the heap in address
      order, from region `i` on; `candidate[k]` is the eager-reclaim answer
      for region `k`. */
  function AfterRebuildFrom(heap: seq<Region>, candidate: seq<bool>, i: nat): (heap': seq<Region>)
    requires |candidate| == |heap| && i <= |heap|
    ensures |heap'| == |heap|
    ensures forall j | 0 <= j < |heap| :: heap'[j].kind == heap[j].kind
    decreases |heap| - i
  {
    if i == |heap| then heap
    else AfterRebuildFrom(UpdateAfterRebuildAt(heap, i, candidate[i]), candidate, i + 1)
  }

  /** `update_after_rebuild` applied to every region of the heap. */
  function AfterRebuildAll(heap: seq<Region>, candidate: seq<bool>): (heap': seq<Region>)
    requires |candidate| == |heap|
    ensures |heap'| == |heap|
    ensures forall j | 0 <= j < |heap| :: heap'[j].kind == heap[j].kind
  {
    AfterRebuildFrom(heap, candidate, 0)
  }

  /** Where a region ends after the whole heap is processed: Untracked when
      its humongous object's set is dropped, otherwise settled by its own
      step. */
  function Settled(heap: seq<Region>, candidate: seq<bool>, j: nat): Region
    requires |candidate| == |heap| && j < |heap|
  {
    if Dropped(heap, candidate, j) then heap[j].(state := Untracked) else UpdateAfterRebuild(heap[j])
  }

  /** A heap whose regions before `i` are processed: those are settled, and
      a later region has only been untracked, by the starts-humongous region
      of its object, if that one is before `i` and is not a candidate. */
  predicate ProcessedUpTo(heap: seq<Region>, candidate: seq<bool>, s: seq<Region>, i: nat)
    requires |candidate| == |heap|
  {
    && |s| == |heap| && i <= |heap|
    && (forall j | 0 <= j < |heap| :: s[j].kind == heap[j].kind)
    && (forall j | 0 <= j < i :: s[j] == Settled(heap, candidate, j))
    && (forall j | i <= j < |heap| ::
          s[j] == if Dropped(heap, candidate, j) && Owner(heap, j).value < i
                  then heap[j].(state := Untracked) else heap[j])
  }

  /** Which object a region belongs to depends only on the region kinds. */
  lemma {:induction false} OwnerFollowsKinds(a: seq<Region>, b: seq<Region>, j: nat)
    requires |a| == |b| && j < |a|
    requires forall k | 0 <= k < |a| :: a[k].kind == b[k].kind
    ensures Owner(a, j) == Owner(b, j)
  {
    if j > 0 {
      OwnerFollowsKinds(a, b, j - 1);
    }
  }

  /** Processing region `i` extends the processed prefix by one. */
  lemma ProcessOne(heap: seq<Region>, candidate: seq<bool>, s: seq<Region>, i: nat)
    requires |candidate| == |heap| && i < |heap|
    requires ProcessedUpTo(heap, candidate, s, i)
    ensures ProcessedUpTo(heap, candidate, UpdateAfterRebuildAt(s, i, candidate[i]), i + 1)
  {
    var s' := UpdateAfterRebuildAt(s, i, candidate[i]);
    forall j | 0 <= j < |heap|
      ensures Owner(s, j) == Owner(heap, j)
    {
      OwnerFollowsKinds(s, heap, j);
    }
    if heap[i].kind == StartsHumongous && !candidate[i] {
      forall j | i < j < |heap| && Owner(heap, j) == Some(i)
        ensures s'[j] == heap[j].(state := Untracked)
      {
        assert s[j] == heap[j];
      }
    }
  }

  /** Processing the rest of a partly processed heap settles every region. */
  lemma {:induction false} ProcessRest(heap: seq<Region>, candidate: seq<bool>, s: seq<Region>, i: nat)
    requires |candidate| == |heap| && i <= |heap|
    requires ProcessedUpTo(heap, candidate, s, i)
    ensures forall j | 0 <= j < |heap| :: AfterRebuildFrom(s, candidate, i)[j] == Settled(heap, candidate, j)
    decreases |heap| - i
  {
    if i < |heap| {
      ProcessOne(heap, candidate, s, i);
      ProcessRest(heap, candidate, UpdateAfterRebuildAt(s, i, candidate[i]), i + 1);
    }
  }

  // ---------------------------------------------------------------------
  // Properties
  // ---------------------------------------------------------------------

  /** The before-rebuild selections and each region's own after-rebuild
      step move along the rebuild graph. Two steps do not: allocation, which
      resets a region's state, and the clear of a humongous object that is
      not an eager-reclaim candidate (`UpdateAfterRebuildAt`), which leaves
      its regions Untracked. */
  lemma StepsFollowRebuildGraph(r: Region, lowOccupancy: bool, obj: seq<Region>, isTypeArray: bool)
    ensures RebuildMove(r.state, UpdateAfterRebuild(r).state)
    ensures r.kind == Old && r.state != Updating ==>
              RebuildMove(r.state, UpdateOldBeforeRebuild(r, lowOccupancy).1.state)
    ensures HumongousObject(obj) && obj[0].state != Updating && (forall i | 0 <= i < |obj| :: obj[i].state == obj[0].state) ==>
              forall i | 0 <= i < |obj| :: RebuildMove(obj[i].state, UpdateHumongousBeforeRebuild(obj, isTypeArray).1[i].state)
  {
  }

  /**
   * After `update_after_rebuild` has visited every region, each region is
   * settled: Untracked when it belongs to a humongous object that is not a
   * potential eager-reclaim candidate, otherwise as its own step leaves it.
   */
  lemma AfterRebuildClosedForm(heap: seq<Region>, candidate: seq<bool>)
    requires |candidate| == |heap|
    ensures forall j | 0 <= j < |heap| :: AfterRebuildAll(heap, candidate)[j] == Settled(heap, candidate, j)
  {
    ProcessRest(heap, candidate, heap, 0);
  }

  /**
   * Nothing is left in the middle of a rebuild afterwards: no old or
   * humongous region is Updating, a region stays tracked exactly when it
   * was tracked and its object's set is not dropped, and a region that
   * was not being rebuilt and is not dropped is unchanged.
   */
  lemma AfterRebuildSettles(heap: seq<Region>, candidate: seq<bool>)
    requires |candidate| == |heap|
    ensures var after := AfterRebuildAll(heap, candidate);
            && (forall j | 0 <= j < |heap| && IsOldOrHumongous(heap[j]) :: after[j].state != Updating)
            && (forall j | 0 <= j < |heap| :: IsTracked(after[j]) <==> IsTracked(heap[j]) && !Dropped(heap, candidate, j))
            && (forall j | 0 <= j < |heap| && heap[j].state != Updating && !Dropped(heap, candidate, j) :: after[j] == heap[j])
  {
    AfterRebuildClosedForm(heap, candidate);
  }

  /**
   * A full cycle for an old region: an untracked region with low occupancy
   * is selected, rebuilt and ends up with a complete remembered set; any
   * other old region is neither selected nor changed.
   */
  lemma OldRegionCycle(r: Region, lowOccupancy: bool)
    requires r.kind == Old && r.state != Updating
    ensures var (selected, r1) := UpdateOldBeforeRebuild(r, lowOccupancy);
            var r2 := UpdateAfterRebuild(r1);
            && (selected ==> r.state == Untracked && r2.state == Complete)
            && (!selected ==> r2 == r)
            && (IsTracked(r2) <==> IsTracked(r) || lowOccupancy)
  {
  }

  /** Every region of a humongous object belongs to its first region. */
  lemma {:induction false} ObjectOwner(obj: seq<Region>, j: nat)
    requires HumongousObject(obj) && j < |obj|
    ensures Owner(obj, j) == Some(0)
  {
    if j > 0 {
      ObjectOwner(obj, j - 1);
    }
  }

  /**
   * A full cycle for a humongous object, `eagerCandidate` being the
   * eager-reclaim answer for its starts-humongous region: an object that is
   * not a candidate ends with every region Untracked; a selected candidate
   * ends with every region Complete; an unselected candidate is unchanged.
   */
  lemma HumongousCycle(obj: seq<Region>, isTypeArray: bool, eagerCandidate: bool)
    requires HumongousObject(obj) && obj[0].state != Updating
    ensures var (selected, obj1) := UpdateHumongousBeforeRebuild(obj, isTypeArray);
            var obj2 := AfterRebuildAll(obj1, seq(|obj|, k => eagerCandidate));
            && |obj2| == |obj|
            && (forall i | 0 <= i < |obj| :: obj2[i].kind == obj[i].kind)
            && (!eagerCandidate ==> forall i | 0 <= i < |obj| :: obj2[i].state == Untracked)
            && (eagerCandidate && selected ==> forall i | 0 <= i < |obj| :: obj2[i].state == Complete)
            && ((eagerCandidate && !selected && forall i | 1 <= i < |obj| :: obj[i].state != Updating) ==> obj2 == obj)
  {
    var (selected, obj1) := UpdateHumongousBeforeRebuild(obj, isTypeArray);
    var candidate := seq(|obj|, k => eagerCandidate);
    AfterRebuildClosedForm(obj1, candidate);
    forall i | 0 <= i < |obj|
      ensures Owner(obj1, i) == Some(0)
    {
      ObjectOwner(obj1, i);
    }
  }

  /** Allocation followed by the selection for a rebuild: a new old region
      is selected exactly when its occupancy is low; a humongous object whose
      regions were all just allocated never is, since every one of them
      already has a complete remembered set. */
  lemma AllocationThenSelection(r: Region, lowOccupancy: bool, obj: seq<Region>, isTypeArray: bool)
    requires IsYoung(r) || IsHumongous(r) || r.kind == Old
    ensures r.kind == Old ==> UpdateOldBeforeRebuild(UpdateAtAllocate(r), lowOccupancy).0 == lowOccupancy
    ensures HumongousObject(obj) ==>
            var obj1 := seq(|obj|, i requires 0 <= i < |obj| => UpdateAtAllocate(obj[i]));
            && HumongousObject(obj1)
            && (forall i | 0 <= i < |obj1| :: obj1[i].state == Complete)
            && UpdateHumongousBeforeRebuild(obj1, isTypeArray) == (false, obj1)
  {
  }
}
